/** The order-by-order book: an arena with a free list, linked queues per price, and the id table,
    kept equal to the naive book `model`. */
module L3 {
  import opened CoreTypes
  import opened BookOrder
  import opened NaiveBook
  import opened Bits
  import opened OrderTable
  import opened OrderQueues
  import opened L3Invariant

  // ----- what a queue adds up to in the naive book -----

  ghost function IdsIn(orders: seq<Order>, q: seq<OrderRef>): set<OrderId>
    requires Refs(orders, q)
  {
    set i | 0 <= i < |q| :: orders[q[i]].id
  }

  lemma IdsWithoutLast(orders: seq<Order>, index: map<OrderId, OrderRef>, m: Model, q: seq<OrderRef>)
    requires IndexOk(orders, index, m) && Refs(orders, q) && q != []
    requires forall i :: 0 <= i < |q| ==> orders[q[i]].live
    requires forall i, j :: 0 <= i < j < |q| ==> q[i] != q[j]
    ensures IdsIn(orders, q) - {orders[q[|q| - 1]].id} == IdsIn(orders, q[..|q| - 1])
    ensures orders[q[|q| - 1]].id in IdsIn(orders, q)
  {
    var n := |q| - 1;
    var last := orders[q[n]].id;
    forall x | x in IdsIn(orders, q[..n]) ensures x in IdsIn(orders, q) - {last} {
      var i :| 0 <= i < n && orders[q[..n][i]].id == x;
      assert q[..n][i] == q[i] && index[x] == q[i] && index[last] == q[n];
    }
    forall x | x in IdsIn(orders, q) - {last} ensures x in IdsIn(orders, q[..n]) {
      var i :| 0 <= i < |q| && orders[q[i]].id == x;
      assert q[..n][i] == q[i];
    }
  }

  lemma {:induction false} SumRefsIsSumQty(orders: seq<Order>, index: map<OrderId, OrderRef>, m: Model,
      q: seq<OrderRef>)
    requires IndexOk(orders, index, m) && Refs(orders, q)
    requires forall i :: 0 <= i < |q| ==> orders[q[i]].live
    requires forall i, j :: 0 <= i < j < |q| ==> q[i] != q[j]
    ensures IdsIn(orders, q) <= m.orders.Keys
    ensures SumRefs(orders, q) == SumQty(m.orders, IdsIn(orders, q))
  {
    if q == [] {
      assert IdsIn(orders, q) == {};
    } else {
      var last := orders[q[|q| - 1]].id;
      SumRefsIsSumQty(orders, index, m, q[..|q| - 1]);
      IdsWithoutLast(orders, index, m, q);
      assert index[last] == q[|q| - 1];
      assert IdsIn(orders, q) == IdsIn(orders, q[..|q| - 1]) + {last};
      SumQtyRemove(m.orders, IdsIn(orders, q), last);
    }
  }

  /** A queue holds exactly the orders resting at its price. */
  lemma QueueHoldsPrice(orders: seq<Order>, index: map<OrderId, OrderRef>, queues: Queues, m: Model, key: Key)
    requires IndexOk(orders, index, m) && Covered(orders, queues) && key in queues && Linked(orders, key, queues[key])
    ensures IdsIn(orders, queues[key]) == AtPrice(m, key.side, key.price)
    ensures SumRefs(orders, queues[key]) == Total(m, key.side, key.price)
  {
    var q := queues[key];
    SumRefsIsSumQty(orders, index, m, q);
    forall x | x in AtPrice(m, key.side, key.price) ensures x in IdsIn(orders, q) {
      assert index[x] in q;
    }
  }

  lemma IdsBeforeAreAhead(orders: seq<Order>, index: map<OrderId, OrderRef>, queues: Queues, m: Model, key: Key, i: nat)
    requires IndexOk(orders, index, m) && Covered(orders, queues) && key in queues && Linked(orders, key, queues[key])
    requires ArrivalOrder(orders, m, queues[key]) && i < |queues[key]|
    ensures IdsIn(orders, queues[key][..i]) == Ahead(m, orders[queues[key][i]].id)
  {
    var q := queues[key];
    var id := orders[q[i]].id;
    forall x | x in Ahead(m, id) ensures x in IdsIn(orders, q[..i]) {
      assert index[x] in q;
      var j :| 0 <= j < |q| && q[j] == index[x];
      assert j < i;
      assert q[..i][j] == q[j];
    }
    forall x | x in IdsIn(orders, q[..i]) ensures x in Ahead(m, id) {
      var j :| 0 <= j < |q[..i]| && orders[q[..i][j]].id == x;
      assert q[..i][j] == q[j];
    }
  }

  /** The orders in front of q[i] are exactly those ahead of it in the naive book. */
  lemma PrefixIsAhead(orders: seq<Order>, index: map<OrderId, OrderRef>, queues: Queues, m: Model, key: Key, i: nat)
    requires IndexOk(orders, index, m) && Covered(orders, queues) && key in queues && Linked(orders, key, queues[key])
    requires ArrivalOrder(orders, m, queues[key]) && i < |queues[key]|
    ensures orders[queues[key][i]].id in m.orders
    ensures SumRefs(orders, queues[key][..i]) == QueueAhead(m, orders[queues[key][i]].id)
  {
    hide Ahead, IdsIn, Covered;
    SumRefsIsSumQty(orders, index, m, queues[key][..i]);
    IdsBeforeAreAhead(orders, index, queues, m, key, i);
  }

  lemma PriceHasQueue(orders: seq<Order>, index: map<OrderId, OrderRef>, queues: Queues, m: Model, key: Key)
    requires IndexOk(orders, index, m) && Covered(orders, queues)
    requires key in queues ==> Linked(orders, key, queues[key]) && queues[key] != []
    ensures key in queues <==> AtPrice(m, key.side, key.price) != {}
    ensures key in queues <==> key.price in Totals(m, key.side)
  {
    if key in queues {
      assert orders[queues[key][0]].id in AtPrice(m, key.side, key.price);
    } else {
      assert forall x :: x in AtPrice(m, key.side, key.price) ==> orders[index[x]].live;
    }
  }

  lemma AheadFacts(orders: seq<Order>, free: seq<OrderRef>, live: nat, index: map<OrderId, OrderRef>, queues: Queues,
                   m: Model, bids: map<int, L3Level>, asks: map<int, L3Level>, key: Key, i: nat)
    requires Tied(orders, free, live, index, queues, m) && QueuesOk(orders, bids, asks, queues)
    requires key in queues && i < |queues[key]|
    ensures Linked(orders, key, queues[key]) && orders[queues[key][i]].id in m.orders
    ensures SumRefs(orders, queues[key][..i]) == QueueAhead(m, orders[queues[key][i]].id)
  {
    hide ArenaOk, Covered, ModelOk, IndexOk, Linked;
    QueueEnds(orders, bids, asks, queues, key);
    assert ArrivalsAt(orders, m, queues, key);
    PrefixIsAhead(orders, index, queues, m, key, i);
  }

  /** One side's levels are the naive book's totals. */
  lemma LevelsAreTotals(orders: seq<Order>, free: seq<OrderRef>, live: nat, index: map<OrderId, OrderRef>,
      queues: Queues, m: Model, bids: map<int, L3Level>, asks: map<int, L3Level>, side: Side)
    requires Tied(orders, free, live, index, queues, m) && QueuesOk(orders, bids, asks, queues)
    ensures SideTotals(LevelsOf(side, bids, asks)) == Totals(m, side)
  {
    hide ArenaOk, Covered, ModelOk, IndexOk, Linked, ArrivalsOk, QueuesOk, Total, SumRefs;
    var levels := LevelsOf(side, bids, asks);
    forall price: int
      ensures price in SideTotals(levels) <==> price in Totals(m, side)
      ensures price in SideTotals(levels) ==> SideTotals(levels)[price] == Totals(m, side)[price]
    {
      var key := Key(side, price);
      QueueEnds(orders, bids, asks, queues, key);
      PriceHasQueue(orders, index, queues, m, key);
      if key in queues { QueueHoldsPrice(orders, index, queues, m, key); }
    }
  }

  lemma LevelFacts(orders: seq<Order>, free: seq<OrderRef>, live: nat, index: map<OrderId, OrderRef>, queues: Queues,
                   m: Model, bids: map<int, L3Level>, asks: map<int, L3Level>, key: Key)
    requires Tied(orders, free, live, index, queues, m) && QueuesOk(orders, bids, asks, queues)
    ensures key in queues <==> key.price in LevelsOf(key.side, bids, asks)
    ensures key in queues <==> AtPrice(m, key.side, key.price) != {}
    ensures key in queues ==>
              && Linked(orders, key, queues[key]) && |orders| <= NO_ORDER
              && Summarises(orders, queues[key], LevelsOf(key.side, bids, asks)[key.price])
              && SumRefs(orders, queues[key]) == Total(m, key.side, key.price)
              && |queues[key]| == |AtPrice(m, key.side, key.price)|
              && ArrivalOrder(orders, m, queues[key])
              && forall i :: 0 <= i < |queues[key]| ==> orders[queues[key][i]].id in AtPrice(m, key.side, key.price)
    ensures key !in queues ==> |AtPrice(m, key.side, key.price)| == 0
  {
    hide Covered, ModelOk, IndexOk, Linked, QueuesOk, Total, SumRefs;
    QueueEnds(orders, bids, asks, queues, key);
    PriceHasQueue(orders, index, queues, m, key);
    if key in queues {
      assert ArrivalsAt(orders, m, queues, key);
      QueueHoldsPrice(orders, index, queues, m, key);
      QueueSize(orders, index, m, queues[key]);
    }
  }

  lemma {:induction false} QueueSize(orders: seq<Order>, index: map<OrderId, OrderRef>, m: Model, q: seq<OrderRef>)
    requires IndexOk(orders, index, m) && Refs(orders, q)
    requires forall i :: 0 <= i < |q| ==> orders[q[i]].live
    requires forall i, j :: 0 <= i < j < |q| ==> q[i] != q[j]
    ensures |IdsIn(orders, q)| == |q|
  {
    if q == [] {
      assert IdsIn(orders, q) == {};
    } else {
      QueueSize(orders, index, m, q[..|q| - 1]);
      IdsWithoutLast(orders, index, m, q);
      assert |IdsIn(orders, q)| == |IdsIn(orders, q[..|q| - 1])| + 1;
    }
  }

  /** The ids of a queue, front first. */
  ghost function IdList(orders: seq<Order>, q: seq<OrderRef>): seq<OrderId>
    requires Refs(orders, q)
  {
    seq(|q|, i requires 0 <= i < |q| => orders[q[i]].id)
  }

  /** A level's chain, front to back, is the naive book's queue at its price. */
  lemma ChainIsQueue(orders: seq<Order>, free: seq<OrderRef>, live: nat, index: map<OrderId, OrderRef>, queues: Queues,
                     m: Model, bids: map<int, L3Level>, asks: map<int, L3Level>, key: Key)
    requires Tied(orders, free, live, index, queues, m) && QueuesOk(orders, bids, asks, queues) && key in queues
    ensures Refs(orders, queues[key]) && IsQueue(m, key.side, key.price, IdList(orders, queues[key]))
  {
    hide ArenaOk, Covered, ModelOk, IndexOk, QueuesOk, AtPrice, ArrivalOrder, IdsIn, IdList, ByArrival, Linked;
    QueueEnds(orders, bids, asks, queues, key);
    assert ArrivalsAt(orders, m, queues, key);
    assert Refs(orders, queues[key]) by { LinkedRefs(orders, key, queues[key]); }
    QueueHoldsPrice(orders, index, queues, m, key);
    LinkedRefs(orders, key, queues[key]);
    ListIsIds(orders, queues[key]);
    ListByArrival(orders, m, queues[key]);
  }

  lemma LinkedRefs(orders: seq<Order>, key: Key, q: seq<OrderRef>)
    requires Linked(orders, key, q)
    ensures Refs(orders, q)
  {
  }

  lemma ListIsIds(orders: seq<Order>, q: seq<OrderRef>)
    requires Refs(orders, q)
    ensures forall id :: id in IdList(orders, q) <==> id in IdsIn(orders, q)
  {
    var ids := IdList(orders, q);
    forall id | id in IdsIn(orders, q) ensures id in ids {
      var i :| 0 <= i < |q| && orders[q[i]].id == id;
      assert ids[i] == id;
    }
  }

  lemma ListByArrival(orders: seq<Order>, m: Model, q: seq<OrderRef>)
    requires Refs(orders, q) && ArrivalOrder(orders, m, q)
    ensures ByArrival(m, IdList(orders, q))
  {
  }

  lemma NoQueue(m: Model, side: Side, price: int, more: seq<OrderId> -> bool)
    requires AtPrice(m, side, price) == {}
    ensures IsQueue(m, side, price, []) && Visited([], more) == []
  {
  }

  function SideTotals(levels: map<int, L3Level>): map<int, int> {
    map price | price in levels :: levels[price].qty
  }

  /** The smallest power of two at or above `n`, and at least 16. */
  method NextPow2(n: nat) returns (p: nat)
    ensures p >= 16 && p >= n && IsPowerOfTwo(p)
    ensures p == 16 || p < 2 * n
  {
    p := 16;
    assert 16 == Pow2(4) by { assert Pow2(3) == 2 * Pow2(2); assert Pow2(2) == 2 * Pow2(1); }
    while p < n
      invariant p >= 16 && IsPowerOfTwo(p)
      invariant p == 16 || p < 2 * n
    {
      DoubledPower(p);
      p := p * 2;
    }
  }

  class L3Book {
    const mix: Mixer
    var orders: seq<Order>
    var freeList: seq<OrderRef>
    var table: seq<Slot>
    var bids: map<int, L3Level>
    var asks: map<int, L3Level>
    var liveOrders: nat
    var tableUsed: nat

    ghost var at: map<OrderId, nat>
    ghost var index: map<OrderId, OrderRef>
    ghost var queues: Queues
    /** The naive book this one equals. */
    ghost var model: Model

    ghost predicate Valid()
      reads this
    {
      && TableOk(table, tableUsed, at, index, mix)
      && QueuesOk(orders, bids, asks, queues)
      && Tied(orders, freeList, liveOrders, index, queues, model)
    }

    constructor (mix: Mixer, expectedOrders: nat)
      ensures Valid() && model == EMPTY_MODEL && orders == []
    {
      this.mix := mix;
      orders, freeList := [], [];
      bids, asks := map[], map[];
      liveOrders := 0;
      var capacity := NextPow2(expectedOrders * 2);
      table := seq(capacity, _ => EMPTY_SLOT);
      tableUsed := 0;
      at, index, queues, model := map[], map[], map[], EMPTY_MODEL;
      EmptyTableOk(capacity, mix);
      EmptyBookOk(EMPTY_MODEL);
    }

    // ----- the id table -----

    method FindRef(id: OrderId) returns (ref: OrderRef)
      requires Valid()
      ensures ref == if id in index then index[id] else NO_ORDER
      ensures id in index <==> id in model.orders
      ensures |orders| <= NO_ORDER && (id in index <==> ref < |orders|)
      ensures id in index ==> orders[ref].live && orders[ref].id == id && SameEntry(orders[ref], model.orders[id])
    {
      hide Tied, QueuesOk;
      FoundOrder(orders, freeList, liveOrders, index, queues, model, id);
      var slot := FindSlot(table, at, mix, id);
      match slot
      case None => ref := NO_ORDER;
      case Some(i) => ref := table[i].ref;
    }

    method Rehash(capacity: nat)
      requires TableOk(table, tableUsed, at, index, mix)
      requires capacity == 2 * |table|
      modifies `table, `tableUsed, `at
      ensures TableOk(table, tableUsed, at, index, mix)
      ensures |table| == capacity && (tableUsed + 1) * 10 < capacity * 7
    {
      DoubledPower(|table|);
      table, tableUsed, at := Rehashed(table, at, index, mix, capacity);
    }

    method InsertRef(id: OrderId, ref: OrderRef)
      requires TableOk(table, tableUsed, at, index, mix) && id !in index
      modifies `table, `tableUsed, `at, `index
      ensures TableOk(table, tableUsed, at, index, mix)
      ensures index == old(index)[id := ref]
    {
      hide TableOk, UsedCount, Dist, Home;
      if (tableUsed + 1) * 10 >= |table| * 7 {
        Rehash(|table| * 2);
      }
      RoomForOne(table, tableUsed, at, index, mix);
      var i := FreeSlot(table, mix, id);
      InsertKeepsTable(table, tableUsed, at, index, mix, i, id, ref);
      if !table[i].tombstone {
        tableUsed := tableUsed + 1;
      }
      table := table[i := Slot(id, ref, true, false)];
      at := at[id := i];
      index := index[id := ref];
    }

    method EraseRef(id: OrderId)
      requires TableOk(table, tableUsed, at, index, mix)
      modifies `table, `at, `index
      ensures TableOk(table, tableUsed, at, index, mix)
      ensures index == old(index) - {id}
    {
      var slot := FindSlot(table, at, mix, id);
      if slot.Some? {
        var i := slot.value;
        EraseKeepsTable(table, tableUsed, at, index, mix, id);
        table := table[i := table[i].(occupied := false, tombstone := true)];
        at := at - {id};
      }
      index := index - {id};
    }

    // ----- the arena and the queues -----

    method Allocate() returns (ref: OrderRef)
      requires if freeList == [] then |orders| < NO_ORDER else freeList[|freeList| - 1] < |orders| <= NO_ORDER
      modifies `orders, `freeList
      ensures Allocated(old(orders), old(freeList), orders, freeList, ref)
      ensures old(orders) <= orders && ref < |orders| <= NO_ORDER
    {
      if freeList != [] {
        ref := freeList[|freeList| - 1];
        freeList := freeList[..|freeList| - 1];
      } else {
        orders := orders + [BLANK_ORDER];
        ref := |orders| - 1;
      }
    }

    method SetLevel(side: Side, price: int, lvl: L3Level)
      modifies `bids, `asks
      ensures price in LevelsOf(side, bids, asks) && LevelsOf(side, bids, asks)[price] == lvl
      ensures AgreeOff(Key(side, price), old(bids), old(asks), bids, asks)
    {
      if side.Bid? { bids := bids[price := lvl]; } else { asks := asks[price := lvl]; }
    }

    method EraseLevel(side: Side, price: int)
      modifies `bids, `asks
      ensures price !in LevelsOf(side, bids, asks)
      ensures AgreeOff(Key(side, price), old(bids), old(asks), bids, asks)
    {
      if side.Bid? { bids := bids - {price}; } else { asks := asks - {price}; }
    }

    method LinkBack(ref: OrderRef)
      requires QueuesOk(orders, bids, asks, queues)
      requires ref < |orders| <= NO_ORDER && orders[ref].live
      requires InNoQueue(queues, ref)
      modifies `orders, `bids, `asks, `queues
      ensures QueuesOk(orders, bids, asks, queues)
      ensures queues == PushBack(old(queues), KeyOf(old(orders)[ref]), ref)
      ensures SameCores(old(orders), orders)
    {
      ghost var key := KeyOf(orders[ref]);
      ghost var q := QueueAt(queues, key);
      QueueEnds(orders, bids, asks, queues, key);
      var order := orders[ref];
      var levels := LevelsOf(order.side, bids, asks);
      var level := if order.price in levels then levels[order.price] else BLANK_LEVEL;
      var head := if level.tail == NO_ORDER then ref else level.head;
      ChainToBack(ref, level.tail, q);
      level := L3Level(level.qty + order.qty, level.orders + 1, head, ref);
      SetLevel(order.side, order.price, level);
      queues := PushBack(queues, key, ref);
      LinkBackKeepsQueues(old(orders), orders, old(bids), old(asks), bids, asks, old(queues), ref, level);
    }

    /** link_back's writes to the arena. */
    method ChainToBack(ref: OrderRef, tail: OrderRef, ghost q: seq<OrderRef>)
      requires ref < |orders| <= NO_ORDER && ref !in q && Refs(orders, q)
      requires tail == if q == [] then NO_ORDER else q[|q| - 1]
      modifies `orders
      ensures LinkedAtBack(old(orders), orders, q, ref)
      ensures SameCores(old(orders), orders)
    {
      orders := orders[ref := orders[ref].(prev := tail, next := NO_ORDER)];
      if tail != NO_ORDER {
        orders := orders[tail := orders[tail].(next := ref)];
      }
    }

    /** Takes the order out of its queue; the level goes when its last order does. */
    method Unlink(ref: OrderRef, ghost i: nat)
      requires QueuesOk(orders, bids, asks, queues)
      requires ref < |orders| <= NO_ORDER && KeyOf(orders[ref]) in queues
      requires i < |queues[KeyOf(orders[ref])]| && queues[KeyOf(orders[ref])][i] == ref
      modifies `orders, `bids, `asks, `queues
      ensures QueuesOk(orders, bids, asks, queues)
      ensures queues == TakeOut(old(queues), KeyOf(old(orders)[ref]), i)
      ensures SameCores(old(orders), orders)
    {
      hide TakeOut, UnlinkedAt, ShrunkLevel, Distinct, Linked, Summarises;
      ghost var key := KeyOf(orders[ref]);
      ghost var q := queues[key];
      var order := orders[ref];
      var levels := LevelsOf(order.side, bids, asks);
      UnlinkFacts(orders, bids, asks, queues, key, i);
      if order.price !in levels {
        return;
      }
      var level := levels[order.price];
      var head := if order.prev != NO_ORDER then level.head else order.next;
      var tail := if order.next != NO_ORDER then level.tail else order.prev;
      Unchain(ref, q, i);
      level := L3Level(level.qty - order.qty, level.orders - 1, head, tail);
      if level.orders == 0 {
        EraseLevel(order.side, order.price);
      } else {
        SetLevel(order.side, order.price, level);
      }
      queues := TakeOut(queues, key, i);
      UnlinkKeepsQueues(old(orders), orders, old(bids), old(asks), bids, asks, old(queues), key, i, level);
    }

    /** unlink's writes to the arena. */
    method Unchain(ref: OrderRef, ghost q: seq<OrderRef>, ghost i: nat)
      requires |orders| <= NO_ORDER && Refs(orders, q) && Distinct(q) && i < |q| && q[i] == ref
      requires orders[ref].prev == PrevIn(q, i) && orders[ref].next == NextIn(q, i)
      modifies `orders
      ensures UnlinkedAt(old(orders), orders, q, i)
      ensures SameCores(old(orders), orders)
    {
      var prev, next := orders[ref].prev, orders[ref].next;
      if prev != NO_ORDER {
        orders := orders[prev := orders[prev].(next := next)];
      }
      if next != NO_ORDER {
        orders := orders[next := orders[next].(prev := prev)];
      }
      orders := orders[ref := orders[ref].(prev := NO_ORDER, next := NO_ORDER)];
      SplicedIsUnlinked(old(orders), orders, q, i);
    }

    /** Changes a queued order's size where it stands, and its level's total with it. */
    method ResizeInPlace(ref: OrderRef, qty: int, ghost i: nat)
      requires QueuesOk(orders, bids, asks, queues)
      requires ref < |orders| && KeyOf(orders[ref]) in queues
      requires i < |queues[KeyOf(orders[ref])]| && queues[KeyOf(orders[ref])][i] == ref
      modifies `orders, `bids, `asks
      ensures QueuesOk(orders, bids, asks, queues)
      ensures orders == old(orders)[ref := old(orders)[ref].(qty := qty)]
    {
      ghost var key := KeyOf(orders[ref]);
      QueueEnds(orders, bids, asks, queues, key);
      var order := orders[ref];
      var levels := LevelsOf(order.side, bids, asks);
      var level := if order.price in levels then levels[order.price] else BLANK_LEVEL;
      level := level.(qty := level.qty + (qty - order.qty));
      SetLevel(order.side, order.price, level);
      orders := orders[ref := order.(qty := qty)];
      ResizeKeepsQueues(old(orders), orders, old(bids), old(asks), bids, asks, queues, key, i, qty);
    }

    // ----- the operations -----

    method Add(id: OrderId, side: Side, price: int, qty: int) returns (ok: bool)
      requires Valid()
      requires freeList == [] ==> |orders| < NO_ORDER  // arena references are 32 bits wide
      modifies this
      ensures Valid()
      ensures (model, ok) == Apply(old(model), Op.Add(id, side, price, qty))
      ensures |orders| == Peak(|old(orders)|, Op.Add(id, side, price, qty), model)
    {
      hide TableOk, QueuesOk, Tied, Placed, PushBack, Peak;
      var found := FindRef(id);
      FoundOrder(orders, freeList, liveOrders, index, queues, model, id);
      if qty <= 0 || found != NO_ORDER {
        SamePeak(orders, freeList, liveOrders, index, queues, model, Op.Add(id, side, price, qty));
        return false;
      }
      var ref, grown := Place(NewOrder(id, side, price, qty));
      InsertRef(id, ref);
      liveOrders := liveOrders + 1;
      AddKeepsTied(old(orders), old(freeList), old(liveOrders), old(index), old(queues), model, grown, orders, freeList,
          ref, id, side, price, qty);
      model := Apply(model, Op.Add(id, side, price, qty)).0;
      return true;
    }

    /** Allocates a slot, fills it in and links it. */
    method Place(order: Order) returns (ref: OrderRef, ghost grown: seq<Order>)
      requires QueuesOk(orders, bids, asks, queues) && order.live
      requires Tied(orders, freeList, liveOrders, index, queues, model)
      requires if freeList == [] then |orders| < NO_ORDER else freeList[|freeList| - 1] < |orders| <= NO_ORDER
      modifies `orders, `freeList, `bids, `asks, `queues
      ensures QueuesOk(orders, bids, asks, queues)
      ensures Placed(old(orders), old(freeList), old(queues), grown, orders, freeList, ref, order)
      ensures queues == PushBack(old(queues), KeyOf(order), ref)
    {
      hide QueuesOk, Tied, InNoQueue, Allocated, SameCores, PushBack;
      ref := Allocate();
      grown := orders;
      NewSlot(old(orders), old(freeList), liveOrders, index, queues, model, bids, asks, grown, freeList, ref, order);
      orders := orders[ref := order];
      LinkBack(ref);
    }

    method Remove(id: OrderId) returns (ok: bool)
      requires Valid()
      modifies this
      ensures Valid()
      ensures (model, ok) == Apply(old(model), Op.Remove(id))
      ensures |orders| == Peak(|old(orders)|, Op.Remove(id), model) == |old(orders)|
    {
      hide TableOk, QueuesOk, Tied, InNoQueue, LiveMembers, Peak;
      var ref := FindRef(id);
      if ref == NO_ORDER {
        assert model.orders - {id} == model.orders;
        SamePeak(orders, freeList, liveOrders, index, queues, model, Op.Remove(id));
        return false;
      }
      ghost var i := QueuePlace(orders, freeList, liveOrders, index, queues, model, ref);
      ghost var a, key := orders, KeyOf(orders[ref]);
      QueuedAreLive(orders, bids, asks, queues);
      TakenOutIsUnqueued(orders, bids, asks, queues, key, i);
      Unlink(ref, i);
      EraseRef(id);
      ghost var b := orders;
      orders := orders[ref := orders[ref].(live := false)];
      UnqueuedSlotIsFree(b, orders, bids, asks, queues, ref);
      freeList := freeList + [ref];
      RemoveKeepsTied(a, old(freeList), liveOrders, old(index), old(queues), model, orders, id, key, i);
      liveOrders := liveOrders - 1;
      model := Apply(model, Op.Remove(id)).0;
      SamePeak(orders, freeList, liveOrders, index, queues, model, Op.Remove(id));
      return true;
    }

    method Modify(id: OrderId, newQty: int) returns (ok: bool)
      requires Valid()
      modifies this
      ensures Valid()
      ensures (model, ok) == Apply(old(model), Op.Modify(id, newQty))
      ensures |orders| == Peak(|old(orders)|, Op.Modify(id, newQty), model) == |old(orders)|
    {
      hide TableOk, QueuesOk, Tied, Peak;
      var ref := FindRef(id);
      if ref == NO_ORDER {
        SamePeak(orders, freeList, liveOrders, index, queues, model, Op.Modify(id, newQty));
        return false;
      }
      if newQty <= 0 {
        ok := Remove(id);
        SamePeak(orders, freeList, liveOrders, index, queues, model, Op.Modify(id, newQty));
        return;
      }
      var oldQty := orders[ref].qty;
      ghost var i := QueuePlace(orders, freeList, liveOrders, index, queues, model, ref);
      ResizeInPlace(ref, newQty, i);
      ResizeKeepsTied(old(orders), orders, freeList, liveOrders, index, queues, model, id, newQty);
      model := Resized(model, id, newQty);
      if newQty > oldQty {
        Requeue(id, ref);
        ghost var e := old(model).orders[id];
        assert model.orders == old(model).orders[id := e.(qty := newQty, arrival := old(model).nextArrival)];
      }
      SamePeak(orders, freeList, liveOrders, index, queues, model, Op.Modify(id, newQty));
      return true;
    }

    /** Priority is lost on an increase: off the queue and onto its back. */
    method Requeue(id: OrderId, ref: OrderRef)
      requires Valid() && id in index && ref == index[id]
      modifies this
      ensures Valid()
      ensures model == Model(old(model).orders[id := old(model).orders[id].(arrival := old(model).nextArrival)],
                             old(model).nextArrival + 1)
      ensures |orders| == |old(orders)|
    {
      hide TableOk, QueuesOk, Tied, InNoQueue, LiveMembers;
      FoundOrder(orders, freeList, liveOrders, index, queues, model, id);
      ghost var i := QueuePlace(orders, freeList, liveOrders, index, queues, model, ref);
      ghost var a, key := orders, KeyOf(orders[ref]);
      QueuedAreLive(orders, bids, asks, queues);
      TakenOutIsUnqueued(orders, bids, asks, queues, key, i);
      Unlink(ref, i);
      LinkBack(ref);
      model := Model(model.orders[id := model.orders[id].(arrival := model.nextArrival)], model.nextArrival + 1);
      RequeueKeepsTied(a, freeList, liveOrders, index, old(queues), old(model), orders, id, key, i, model);
    }

    method Execute(id: OrderId, traded: int) returns (ok: bool)
      requires Valid()
      modifies this
      ensures Valid()
      ensures (model, ok) == Apply(old(model), Op.Execute(id, traded))
      ensures |orders| == Peak(|old(orders)|, Op.Execute(id, traded), model) == |old(orders)|
    {
      hide TableOk, QueuesOk, Tied, Peak;
      var ref := FindRef(id);
      if ref == NO_ORDER || traded <= 0 {
        SamePeak(orders, freeList, liveOrders, index, queues, model, Op.Execute(id, traded));
        return false;
      }
      if traded >= orders[ref].qty {
        ok := Remove(id);
        SamePeak(orders, freeList, liveOrders, index, queues, model, Op.Execute(id, traded));
        return;
      }
      ghost var i := QueuePlace(orders, freeList, liveOrders, index, queues, model, ref);
      var qty := orders[ref].qty - traded;
      ResizeInPlace(ref, qty, i);
      ResizeKeepsTied(old(orders), orders, freeList, liveOrders, index, queues, model, id, qty);
      model := Resized(model, id, qty);
      SamePeak(orders, freeList, liveOrders, index, queues, model, Op.Execute(id, traded));
      return true;
    }

    method Clear()
      requires Valid()
      modifies this
      ensures Valid()
      ensures model == Apply(old(model), Op.Clear).0
      ensures |table| == |old(table)| && |orders| == Peak(|old(orders)|, Op.Clear, model) == 0
    {
      hide TableOk, QueuesOk, Tied, IsPowerOfTwo;
      CapacityIsPower(table, tableUsed, at, index, mix);
      orders, freeList := [], [];
      bids, asks := map[], map[];
      table := seq(|table|, _ => EMPTY_SLOT);
      EmptyTableOk(|table|, mix);
      EmptyBookOk(Apply(model, Op.Clear).0);
      liveOrders, tableUsed := 0, 0;
      at, index, queues := map[], map[], map[];
      model := Apply(model, Op.Clear).0;
    }

    // ----- queries -----

    method Find(id: OrderId) returns (found: Option<Order>)
      requires Valid()
      ensures found.Some? <==> id in model.orders
      ensures found.Some? ==> found.value.id == id && SameEntry(found.value, model.orders[id])
    {
      var ref := FindRef(id);
      found := if ref == NO_ORDER then None else Some(orders[ref]);
    }

    /** Adds up the quantities from the head of the level's chain to the order itself. */
    method QueueAheadOf(id: OrderId) returns (ahead: Option<int>)
      requires Valid()
      ensures ahead == if id in model.orders then Some(QueueAhead(model, id)) else None
    {
      hide TableOk, QueuesOk, Tied, QueueAhead;
      var ref := FindRef(id);
      if ref == NO_ORDER {
        return None;
      }
      var target := orders[ref];
      ghost var key := KeyOf(target);
      ghost var i := QueuePlace(orders, freeList, liveOrders, index, queues, model, ref);
      ghost var q := queues[key];
      QueueEnds(orders, bids, asks, queues, key);
      var levels := LevelsOf(target.side, bids, asks);
      if target.price !in levels {
        return None;
      }
      var sum := 0;
      var cursor := levels[target.price].head;
      ghost var j := 0;
      while cursor != NO_ORDER && cursor != ref
        invariant 0 <= j <= i && cursor == q[j]
        invariant sum == SumRefs(orders, q[..j])
        decreases i - j
      {
        assert q[..j + 1][..j] == q[..j];
        sum := sum + orders[cursor].qty;
        QueueLinks(orders, bids, asks, queues, key, j);
        cursor := orders[cursor].next;
        j := j + 1;
      }
      AheadFacts(orders, freeList, liveOrders, index, queues, model, bids, asks, key, i);
      return Some(sum);
    }

    /** Total size and order count at a price. */
    method FindLevel(side: Side, price: int) returns (found: Option<L3Level>)
      requires Valid()
      ensures found.Some? <==> AtPrice(model, side, price) != {}
      ensures found.Some? ==> found.value.qty == Total(model, side, price)
      ensures found.Some? ==> found.value.orders == |AtPrice(model, side, price)|
    {
      hide TableOk, QueuesOk, Tied, Total, AtPrice;
      var levels := LevelsOf(side, bids, asks);
      LevelFacts(orders, freeList, liveOrders, index, queues, model, bids, asks, Key(side, price));
      found := if price in levels then Some(levels[price]) else None;
    }

    /** The L2 projection of one side, in book order, until `more` answers false. */
    method ForEachLevel(side: Side, more: seq<Level> -> bool) returns (seen: seq<Level>)
      requires Valid()
      ensures seen == Visited(InOrder(side, Totals(model, side)), more)
    {
      hide TableOk, QueuesOk, Tied, Totals;
      LevelsAreTotals(orders, freeList, liveOrders, index, queues, model, bids, asks, side);
      seen := Walk(InOrder(side, SideTotals(LevelsOf(side, bids, asks))), more);
    }

    method Best(side: Side) returns (best: Option<Level>)
      requires Valid()
      ensures best == var all := InOrder(side, Totals(model, side)); if all == [] then None else Some(all[0])
    {
      hide TableOk, QueuesOk, Tied, Totals;
      LevelsAreTotals(orders, freeList, liveOrders, index, queues, model, bids, asks, side);
      var levels := LevelsOf(side, bids, asks);
      if levels == map[] {
        assert SideTotals(levels) == map[];
        return None;
      }
      assert (forall p :: p !in levels.Keys) ==> levels == map[];
      assert SideTotals(levels).Keys == levels.Keys;
      var price := Touch(side, levels.Keys);
      return Some(Level(price, levels[price].qty));
    }

    /** The ids resting at a price, front of the queue first, until `more` answers false: a prefix of
        the one arrival-ordered listing of them. */
    method ForEachOrder(side: Side, price: int, more: seq<OrderId> -> bool) returns (seen: seq<OrderId>)
      requires Valid()
      ensures exists all :: IsQueue(model, side, price, all) && seen == Visited(all, more)
    {
      hide TableOk, QueuesOk, Tied, AtPrice, IsQueue, Visited, VisitedFrom, SumRefs, Total, ArrivalOrder, Linked;
      var levels := LevelsOf(side, bids, asks);
      ghost var key := Key(side, price);
      LevelFacts(orders, freeList, liveOrders, index, queues, model, bids, asks, key);
      seen := [];
      if price !in levels {
        NoQueue(model, side, price, more);
        return;
      }
      ghost var q := queues[key];
      ChainIsQueue(orders, freeList, liveOrders, index, queues, model, bids, asks, key);
      ghost var all := IdList(orders, q);
      StartVisit(all, more);
      var cursor := levels[price].head;
      while cursor != NO_ORDER
        invariant |seen| <= |q| && cursor == (if |seen| == |q| then NO_ORDER else q[|seen|])
        invariant seen == all[..|seen|] && Visited(all, more) == VisitedFrom(all, |seen|, more)
        decreases |q| - |seen|
      {
        QueueLinks(orders, bids, asks, queues, key, |seen|);
        VisitStep(all, |seen|, more);
        assert all[..|seen| + 1] == all[..|seen|] + [all[|seen|]];
        seen := seen + [orders[cursor].id];
        if !more(seen) {
          return;
        }
        cursor := orders[cursor].next;
      }
      EndVisit(all, |seen|, more);
    }

    /** No slot is in two queues or twice in one, and the arena is exactly live orders plus free slots. */
    lemma Shape()
      requires Valid()
      ensures |orders| == |model.orders| + |freeList| && liveOrders == |model.orders|
      ensures forall k, l, i, j | k in queues && l in queues && 0 <= i < |queues[k]| && 0 <= j < |queues[l]| ::
                queues[k][i] == queues[l][j] ==> k == l && i == j
      ensures forall k, i, j :: k in queues && 0 <= i < |queues[k]| && 0 <= j < |freeList| ==>
                queues[k][i] != freeList[j]
    {
      hide TableOk, QueuesOk, Tied;
      ArenaFacts(orders, freeList, liveOrders, index, queues, model);
      forall k, l, i, j | k in queues && l in queues && 0 <= i < |queues[k]| && 0 <= j < |queues[l]|
                          && queues[k][i] == queues[l][j]
        ensures k == l && i == j
      {
        QueueEnds(orders, bids, asks, queues, k);
        QueueEnds(orders, bids, asks, queues, l);
      }
      forall k, i, j | k in queues && 0 <= i < |queues[k]| && 0 <= j < |freeList|
        ensures queues[k][i] != freeList[j]
      {
        QueueEnds(orders, bids, asks, queues, k);
      }
    }
  }
}
