/** How the arena, the id table and the queues of the L3 book together spell the naive book. */
module L3Invariant {
  import opened CoreTypes
  import opened NaiveBook
  import opened OrderTable
  import opened OrderQueues

  /** Each arena slot is live or on the free list, never both, and the free list has no repeats. */
  ghost predicate ArenaOk(orders: seq<Order>, free: seq<OrderRef>, live: nat) {
    && |orders| == live + |free| <= NO_ORDER
    && (forall i :: 0 <= i < |free| ==> free[i] < |orders| && !orders[free[i]].live)
    && (forall i, j :: 0 <= i < j < |free| ==> free[i] != free[j])
    && (forall r :: 0 <= r < |orders| && !orders[r].live ==> r in free)
  }

  ghost predicate SameEntry(o: Order, e: Entry) {
    o.side == e.side && o.price == e.price && o.qty == e.qty
  }

  /** The table's index is a bijection between live slots and the naive book's orders. */
  ghost predicate IndexOk(orders: seq<Order>, index: map<OrderId, OrderRef>, m: Model) {
    && index.Keys == m.orders.Keys
    && (forall id :: id in index ==>
          index[id] < |orders| && orders[index[id]].live
          && orders[index[id]].id == id && SameEntry(orders[index[id]], m.orders[id]))
    && (forall r :: 0 <= r < |orders| && orders[r].live ==> orders[r].id in index && index[orders[r].id] == r)
  }

  /** Every live order stands in its own level's queue. */
  ghost predicate Covered(orders: seq<Order>, queues: Queues) {
    forall r :: 0 <= r < |orders| && orders[r].live ==> KeyOf(orders[r]) in queues && r in queues[KeyOf(orders[r])]
  }

  ghost predicate ArrivalOrder(orders: seq<Order>, m: Model, q: seq<OrderRef>)
    requires Refs(orders, q)
  {
    && (forall i :: 0 <= i < |q| ==> orders[q[i]].id in m.orders)
    && (forall i, j :: 0 <= i < j < |q| ==> m.orders[orders[q[i]].id].arrival < m.orders[orders[q[j]].id].arrival)
  }

  /** Queue order is arrival order. */
  ghost predicate ArrivalsAt(orders: seq<Order>, m: Model, queues: Queues, key: Key) {
    key in queues ==> Refs(orders, queues[key]) && ArrivalOrder(orders, m, queues[key])
  }

  ghost predicate ArrivalsOk(orders: seq<Order>, m: Model, queues: Queues) {
    forall key :: ArrivalsAt(orders, m, queues, key)
  }

  ghost predicate Tied(orders: seq<Order>, free: seq<OrderRef>, live: nat, index: map<OrderId, OrderRef>,
                       queues: Queues, m: Model) {
    && ArenaOk(orders, free, live)
    && IndexOk(orders, index, m)
    && Covered(orders, queues)
    && ArrivalsOk(orders, m, queues)
    && ModelOk(m)
    && live == |m.orders|
  }

  function QueueAt(queues: Queues, key: Key): seq<OrderRef> {
    if key in queues then queues[key] else []
  }

  function PushBack(queues: Queues, key: Key, ref: OrderRef): Queues {
    queues[key := QueueAt(queues, key) + [ref]]
  }

  /** The queue at `key` without q[i]; a level left empty goes away. */
  function TakeOut(queues: Queues, key: Key, i: nat): Queues
    requires key in queues && i < |queues[key]|
  {
    if |queues[key]| == 1 then queues - {key} else queues[key := RemoveAt(queues[key], i)]
  }

  /** Equal but for links, at every slot of `a`. */
  ghost predicate SameCores(a: seq<Order>, b: seq<Order>) {
    |a| == |b| && forall r :: 0 <= r < |a| ==> SameButLinks(a[r], b[r])
  }

  lemma ArrivalOrderKept(a: seq<Order>, m: Model, b: seq<Order>, m': Model, q: seq<OrderRef>)
    requires Refs(a, q) && Refs(b, q) && ArrivalOrder(a, m, q)
    requires forall i :: 0 <= i < |q| ==>
               b[q[i]].id == a[q[i]].id && a[q[i]].id in m'.orders
               && m'.orders[a[q[i]].id].arrival == m.orders[a[q[i]].id].arrival
    ensures ArrivalOrder(b, m', q)
  {
  }

  // ----- add -----

  /** allocate(): the slot comes from the free list when there is one, else the arena grows. */
  function NewOrder(id: OrderId, side: Side, price: int, qty: int): Order {
    Order(id, price, qty, side, NO_ORDER, NO_ORDER, true)
  }

  ghost predicate Allocated(a: seq<Order>, free: seq<OrderRef>, b: seq<Order>, free': seq<OrderRef>, ref: OrderRef) {
    if free == [] then ref == |a| && |b| == |a| + 1 && free' == []
    else free == free' + [ref] && |b| == |a|
  }

  lemma AddKeepsArena(a: seq<Order>, free: seq<OrderRef>, live: nat, b: seq<Order>, free': seq<OrderRef>, ref: OrderRef)
    requires ArenaOk(a, free, live) && Allocated(a, free, b, free', ref) && |b| <= NO_ORDER
    requires forall r :: 0 <= r < |a| && r != ref ==> b[r].live == a[r].live
    requires ref < |b| && b[ref].live
    ensures ArenaOk(b, free', live + 1)
    ensures ref < |a| ==> !a[ref].live
  {
    if free != [] {
      assert free[|free'|] == ref;
      forall r | 0 <= r < |b| && !b[r].live ensures r in free' {
        assert r in free;
      }
      assert forall i :: 0 <= i < |free'| ==> free[i] == free'[i];
    }
  }

  lemma AddKeepsIndex(a: seq<Order>, index: map<OrderId, OrderRef>, m: Model, b: seq<Order>, ref: OrderRef,
                      id: OrderId, e: Entry, m': Model)
    requires IndexOk(a, index, m) && id !in m.orders
    requires |a| <= |b| && |b| <= |a| + 1 && ref < |b| && (ref < |a| ==> !a[ref].live) && (|b| > |a| ==> ref == |a|)
    requires forall r :: 0 <= r < |a| && r != ref ==> SameButLinks(a[r], b[r])
    requires b[ref].live && b[ref].id == id && SameEntry(b[ref], e)
    requires m'.orders == m.orders[id := e]
    ensures IndexOk(b, index[id := ref], m')
  {
  }

  lemma AddKeepsCover(a: seq<Order>, queues: Queues, b: seq<Order>, ref: OrderRef)
    requires Covered(a, queues)
    requires |a| <= |b| && |b| <= |a| + 1 && ref < |b| && (|b| > |a| ==> ref == |a|)
    requires forall r :: 0 <= r < |a| && r != ref ==> SameButLinks(a[r], b[r])
    ensures Covered(b, PushBack(queues, KeyOf(b[ref]), ref))
  {
  }

  lemma ArrivalOrderPush(b: seq<Order>, m: Model, q: seq<OrderRef>, ref: OrderRef)
    requires Refs(b, q) && ArrivalOrder(b, m, q) && ref < |b| && b[ref].id in m.orders
    requires forall i :: 0 <= i < |q| ==> m.orders[b[q[i]].id].arrival < m.orders[b[ref].id].arrival
    ensures Refs(b, q + [ref]) && ArrivalOrder(b, m, q + [ref])
  {
    var p := q + [ref];
    forall i, j | 0 <= i < j < |p|
      ensures b[p[i]].id in m.orders && b[p[j]].id in m.orders
      ensures m.orders[b[p[i]].id].arrival < m.orders[b[p[j]].id].arrival
    {
      assert p[i] == q[i];
      if j < |q| { assert p[j] == q[j]; } else { assert p[j] == ref; }
    }
    assert forall i :: 0 <= i < |p| ==> p[i] == if i < |q| then q[i] else ref;
  }

  /** `ref` holds the newest arrival, an order no queue holds yet; every other order is as before. */
  ghost predicate Newest(a: seq<Order>, m: Model, queues: Queues, b: seq<Order>, m': Model, ref: OrderRef) {
    && |a| <= |b| && ref < |b|
    && (forall r :: 0 <= r < |a| && r != ref ==> b[r].id == a[r].id)
    && (forall key :: key in queues ==> ref !in queues[key])
    && b[ref].id in m'.orders && m'.orders[b[ref].id].arrival == m.nextArrival
    && (forall r :: 0 <= r < |a| && r != ref && a[r].id in m.orders && (exists key :: key in queues && r in queues[key])
          ==> a[r].id in m'.orders && m'.orders[a[r].id] == m.orders[a[r].id])
  }

  lemma NewestIsLater(a: seq<Order>, m: Model, queues: Queues, b: seq<Order>, m': Model, ref: OrderRef, key: Key)
    requires ArrivalsOk(a, m, queues) && ModelOk(m) && Newest(a, m, queues, b, m', ref) && key in queues
    ensures Refs(b, queues[key]) && ArrivalOrder(b, m', queues[key])
    ensures forall i :: 0 <= i < |queues[key]| ==>
              m'.orders[b[queues[key][i]].id].arrival < m'.orders[b[ref].id].arrival
  {
    var q := queues[key];
    assert ArrivalsAt(a, m, queues, key);
    forall i | 0 <= i < |q|
      ensures q[i] < |b| && b[q[i]].id == a[q[i]].id && a[q[i]].id in m'.orders
      ensures m'.orders[a[q[i]].id] == m.orders[a[q[i]].id]
    {
      assert q[i] in q;
    }
    ArrivalOrderKept(a, m, b, m', q);
  }

  /** The newest arrival may stand at the back of its queue. */
  lemma PushKeepsArrivals(a: seq<Order>, m: Model, queues: Queues, b: seq<Order>, m': Model, ref: OrderRef)
    requires ArrivalsOk(a, m, queues) && ModelOk(m) && Newest(a, m, queues, b, m', ref)
    ensures ArrivalsOk(b, m', PushBack(queues, KeyOf(b[ref]), ref))
  {
    var key := KeyOf(b[ref]);
    var queues' := PushBack(queues, key, ref);
    forall k: Key ensures ArrivalsAt(b, m', queues', k) {
      if k in queues { NewestIsLater(a, m, queues, b, m', ref, k); }
      if k == key { ArrivalOrderPush(b, m', QueueAt(queues, key), ref); }
    }
  }

  // ----- remove -----

  lemma RemoveKeepsArena(a: seq<Order>, free: seq<OrderRef>, live: nat, b: seq<Order>, ref: OrderRef)
    requires ArenaOk(a, free, live) && ref < |a| && a[ref].live && live > 0
    requires |b| == |a| && (forall r :: 0 <= r < |a| && r != ref ==> b[r].live == a[r].live) && !b[ref].live
    ensures ArenaOk(b, free + [ref], live - 1)
  {
    assert ref !in free;
  }

  lemma RemoveKeepsIndex(a: seq<Order>, index: map<OrderId, OrderRef>, m: Model, b: seq<Order>, id: OrderId, m': Model)
    requires IndexOk(a, index, m) && id in index
    requires |b| == |a| && !b[index[id]].live
    requires forall r :: 0 <= r < |a| && r != index[id] ==> SameButLinks(a[r], b[r])
    requires m'.orders == m.orders - {id}
    ensures IndexOk(b, index - {id}, m')
  {
  }

  lemma RemoveKeepsCover(a: seq<Order>, queues: Queues, b: seq<Order>, key: Key, i: nat)
    requires Covered(a, queues) && key in queues && i < |queues[key]|
    requires |b| == |a| && queues[key][i] < |b| && !b[queues[key][i]].live
    requires forall r :: 0 <= r < |a| && r != queues[key][i] ==> SameButLinks(a[r], b[r])
    ensures Covered(b, TakeOut(queues, key, i))
  {
    var q := queues[key];
    forall r | 0 <= r < |b| && b[r].live
      ensures KeyOf(b[r]) in TakeOut(queues, key, i) && r in TakeOut(queues, key, i)[KeyOf(b[r])]
    {
      assert KeyOf(b[r]) == KeyOf(a[r]) && r in queues[KeyOf(a[r])];
      if KeyOf(b[r]) == key {
        MemberAfterRemoveAt(q, i, r);
      }
    }
  }

  lemma MemberAfterRemoveAt(q: seq<OrderRef>, i: nat, r: OrderRef)
    requires i < |q| && r in q && r != q[i]
    ensures r in RemoveAt(q, i) && |q| > 1
  {
    var k :| 0 <= k < |q| && q[k] == r;
    if k < i { assert RemoveAt(q, i)[k] == r; } else { assert RemoveAt(q, i)[k - 1] == r; }
  }

  lemma TakeOutKeepsArrivals(a: seq<Order>, m: Model, queues: Queues, b: seq<Order>, key: Key, i: nat)
    requires ArrivalsOk(a, m, queues) && key in queues && i < |queues[key]|
    requires |b| == |a| && forall r :: 0 <= r < |a| ==> b[r].id == a[r].id
    ensures ArrivalsOk(b, m, TakeOut(queues, key, i))
  {
    var q, queues' := queues[key], TakeOut(queues, key, i);
    forall k: Key ensures ArrivalsAt(b, m, queues', k) {
      assert ArrivalsAt(a, m, queues, k);
      if k == key && |q| > 1 {
        var p := RemoveAt(q, i);
        assert forall j :: 0 <= j < |p| ==> p[j] == q[if j < i then j else j + 1];
      }
    }
  }

  // ----- resize in place -----

  function Resized(m: Model, id: OrderId, qty: int): Model
    requires id in m.orders
  {
    m.(orders := m.orders[id := m.orders[id].(qty := qty)])
  }

  lemma ResizeKeepsArrivals(a: seq<Order>, b: seq<Order>, queues: Queues, m: Model, ref: OrderRef, id: OrderId,
      qty: int)
    requires ArrivalsOk(a, m, queues) && id in m.orders && ref < |a|
    requires b == a[ref := a[ref].(qty := qty)]
    ensures ArrivalsOk(b, Resized(m, id, qty), queues)
  {
    var m' := Resized(m, id, qty);
    forall k: Key ensures ArrivalsAt(b, m', queues, k) {
      assert ArrivalsAt(a, m, queues, k);
      if k in queues { ArrivalOrderKept(a, m, b, m', queues[k]); }
    }
  }

  lemma ResizeKeepsRest(a: seq<Order>, b: seq<Order>, free: seq<OrderRef>, live: nat, index: map<OrderId, OrderRef>,
                        queues: Queues, m: Model, id: OrderId, qty: int)
    requires ArenaOk(a, free, live) && IndexOk(a, index, m) && Covered(a, queues)
    requires id in index && b == a[index[id] := a[index[id]].(qty := qty)]
    ensures ArenaOk(b, free, live) && IndexOk(b, index, Resized(m, id, qty)) && Covered(b, queues)
  {
    assert Resized(m, id, qty).orders.Keys == m.orders.Keys;
  }

  // ----- queues and levels under link_back and unlink -----

  /** What a level's entry says about its queue. */
  lemma QueueEnds(orders: seq<Order>, bids: map<int, L3Level>, asks: map<int, L3Level>, queues: Queues, key: Key)
    requires QueuesOk(orders, bids, asks, queues)
    ensures key in queues <==> key.price in LevelsOf(key.side, bids, asks)
    ensures Linked(orders, key, QueueAt(queues, key))
    ensures key in queues ==> Summarises(orders, queues[key], LevelsOf(key.side, bids, asks)[key.price])
  {
    assert KeyOk(orders, bids, asks, queues, key);
  }

  lemma QueueLinks(orders: seq<Order>, bids: map<int, L3Level>, asks: map<int, L3Level>, queues: Queues, key: Key,
      i: nat)
    requires QueuesOk(orders, bids, asks, queues) && key in queues && i < |queues[key]|
    ensures Linked(orders, key, queues[key])
    ensures orders[queues[key][i]].prev == PrevIn(queues[key], i)
    ensures orders[queues[key][i]].next == NextIn(queues[key], i)
  {
    QueueEnds(orders, bids, asks, queues, key);
  }

  lemma LinkBackKeepsQueues(a: seq<Order>, b: seq<Order>, bids: map<int, L3Level>, asks: map<int, L3Level>,
                            bids': map<int, L3Level>, asks': map<int, L3Level>, queues: Queues, ref: OrderRef,
                                lvl: L3Level)
    requires QueuesOk(a, bids, asks, queues) && ref < |a| && a[ref].live
    requires forall k :: k in queues ==> ref !in queues[k]
    requires Refs(a, QueueAt(queues, KeyOf(a[ref]))) && LinkedAtBack(a, b, QueueAt(queues, KeyOf(a[ref])), ref)
    requires AgreeOff(KeyOf(a[ref]), bids, asks, bids', asks')
    requires a[ref].price in LevelsOf(a[ref].side, bids', asks')
             && LevelsOf(a[ref].side, bids', asks')[a[ref].price] == lvl
    requires var q := QueueAt(queues, KeyOf(a[ref]));
             lvl == L3Level(SumRefs(a, q) + a[ref].qty, |q| + 1, (q + [ref])[0], ref)
    ensures QueuesOk(b, bids', asks', PushBack(queues, KeyOf(a[ref]), ref))
  {
    var key := KeyOf(a[ref]);
    var q := QueueAt(queues, key);
    QueueEnds(a, bids, asks, queues, key);
    LinkBackKeepsChain(a, b, key, q, ref);
    assert PushBack(queues, key, ref) - {key} == queues - {key};
    OneQueueChanged(a, b, bids, asks, bids', asks', queues, PushBack(queues, key, ref), key);
  }

  /** What unlink makes of the level's entry. */
  ghost predicate ShrunkLevel(a: seq<Order>, q: seq<OrderRef>, i: nat, lvl: L3Level)
    requires Refs(a, q) && i < |q|
  {
    lvl == L3Level(SumRefs(a, q) - a[q[i]].qty, |q| - 1,
                   if i == 0 then NextIn(q, i) else q[0], if i == |q| - 1 then PrevIn(q, i) else q[|q| - 1])
  }

  /** An order's own links and its level's entry are enough to unlink it. */
  lemma UnlinkFacts(orders: seq<Order>, bids: map<int, L3Level>, asks: map<int, L3Level>, queues: Queues, key: Key,
      i: nat)
    requires QueuesOk(orders, bids, asks, queues) && key in queues && i < |queues[key]| && |orders| <= NO_ORDER
    ensures Refs(orders, queues[key]) && Distinct(queues[key])
    ensures orders[queues[key][i]].prev == PrevIn(queues[key], i)
    ensures orders[queues[key][i]].next == NextIn(queues[key], i)
    ensures key.price in LevelsOf(key.side, bids, asks)
    ensures var level, order := LevelsOf(key.side, bids, asks)[key.price], orders[queues[key][i]];
            var head := if order.prev != NO_ORDER then level.head else order.next;
            var tail := if order.next != NO_ORDER then level.tail else order.prev;
            ShrunkLevel(orders, queues[key], i, L3Level(level.qty - order.qty, level.orders - 1, head, tail))
  {
    QueueEnds(orders, bids, asks, queues, key);
    QueueLinks(orders, bids, asks, queues, key, i);
  }

  lemma ShrunkLevelSummarises(a: seq<Order>, b: seq<Order>, key: Key, q: seq<OrderRef>, i: nat, lvl: L3Level)
    requires Linked(a, key, q) && i < |q| && UnlinkedAt(a, b, q, i) && ShrunkLevel(a, q, i, lvl)
    ensures Linked(b, key, RemoveAt(q, i))
    ensures |q| > 1 ==> Summarises(b, RemoveAt(q, i), lvl)
  {
    UnlinkKeepsChain(a, b, key, q, i);
  }

  lemma UnlinkKeepsQueues(a: seq<Order>, b: seq<Order>, bids: map<int, L3Level>, asks: map<int, L3Level>,
                          bids': map<int, L3Level>, asks': map<int, L3Level>, queues: Queues, key: Key, i: nat,
                              lvl: L3Level)
    requires QueuesOk(a, bids, asks, queues) && key in queues && i < |queues[key]|
    requires Refs(a, queues[key]) && UnlinkedAt(a, b, queues[key], i) && ShrunkLevel(a, queues[key], i, lvl)
    requires AgreeOff(key, bids, asks, bids', asks')
    requires lvl.orders == 0 ==> key.price !in LevelsOf(key.side, bids', asks')
    requires lvl.orders != 0 ==>
               key.price in LevelsOf(key.side, bids', asks') && LevelsOf(key.side, bids', asks')[key.price] == lvl
    ensures QueuesOk(b, bids', asks', TakeOut(queues, key, i))
  {
    QueueEnds(a, bids, asks, queues, key);
    ShrunkLevelSummarises(a, b, key, queues[key], i, lvl);
    UnlinkLeavesOthers(a, b, bids, asks, queues, key, i);
    assert TakeOut(queues, key, i) - {key} == queues - {key};
    OneQueueChanged(a, b, bids, asks, bids', asks', queues, TakeOut(queues, key, i), key);
  }

  lemma UnlinkLeavesOthers(a: seq<Order>, b: seq<Order>, bids: map<int, L3Level>, asks: map<int, L3Level>,
                           queues: Queues, key: Key, i: nat)
    requires key in queues && i < |queues[key]| && Linked(a, key, queues[key]) && UnlinkedAt(a, b, queues[key], i)
    ensures forall r :: 0 <= r < |a| && KeyOf(a[r]) != key ==> b[r] == a[r]
  {
  }

  // ----- whole operations -----

  ghost predicate InNoQueue(queues: Queues, ref: OrderRef) {
    forall key :: key in queues ==> ref !in queues[key]
  }

  /** A slot no queue holds can be rewritten, and the arena can grow, without touching a queue. */
  lemma UnqueuedSlotIsFree(a: seq<Order>, b: seq<Order>, bids: map<int, L3Level>, asks: map<int, L3Level>,
                           queues: Queues, ref: OrderRef)
    requires QueuesOk(a, bids, asks, queues) && InNoQueue(queues, ref)
    requires |a| <= |b| && forall r :: 0 <= r < |a| && r != ref ==> b[r] == a[r]
    ensures QueuesOk(b, bids, asks, queues)
  {
    forall key: Key ensures KeyOk(b, bids, asks, queues, key) {
      assert KeyOk(a, bids, asks, queues, key);
      if key in queues {
        var q := queues[key];
        forall i | 0 <= i < |q| ensures q[i] < |b| && b[q[i]] == a[q[i]] { assert q[i] in q; }
        QueueKept(a, b, key, q);
      }
    }
  }

  /** Queue members are live. */
  ghost predicate LiveMembers(orders: seq<Order>, queues: Queues) {
    forall k, i :: k in queues && 0 <= i < |queues[k]| ==> queues[k][i] < |orders| && orders[queues[k][i]].live
  }

  lemma QueuedAreLive(orders: seq<Order>, bids: map<int, L3Level>, asks: map<int, L3Level>, queues: Queues)
    requires QueuesOk(orders, bids, asks, queues)
    ensures LiveMembers(orders, queues)
  {
    forall k, i | k in queues && 0 <= i < |queues[k]|
      ensures queues[k][i] < |orders| && orders[queues[k][i]].live
    {
      QueueEnds(orders, bids, asks, queues, k);
    }
  }

  lemma DeadIsUnqueued(orders: seq<Order>, bids: map<int, L3Level>, asks: map<int, L3Level>, queues: Queues,
      ref: OrderRef)
    requires QueuesOk(orders, bids, asks, queues) && (ref < |orders| ==> !orders[ref].live)
    ensures InNoQueue(queues, ref)
  {
    forall key | key in queues ensures ref !in queues[key] {
      QueueEnds(orders, bids, asks, queues, key);
    }
  }

  lemma TakenOutIsUnqueued(orders: seq<Order>, bids: map<int, L3Level>, asks: map<int, L3Level>, queues: Queues,
                           key: Key, i: nat)
    requires QueuesOk(orders, bids, asks, queues) && key in queues && i < |queues[key]|
    ensures InNoQueue(TakeOut(queues, key, i), queues[key][i])
  {
    hide Linked, QueuesOk, RemoveAt, Summarises;
    var ref, queues' := queues[key][i], TakeOut(queues, key, i);
    QueueEnds(orders, bids, asks, queues, key);
    forall k | k in queues' ensures ref !in queues'[k] {
      QueueEnds(orders, bids, asks, queues, k);
      if k == key { GoneFromOwn(orders, key, queues[key], i); }
          else { InOneQueue(orders, key, queues[key], i, k, queues[k]); }
    }
  }

  lemma GoneFromOwn(orders: seq<Order>, key: Key, q: seq<OrderRef>, i: nat)
    requires Linked(orders, key, q) && i < |q|
    ensures q[i] !in RemoveAt(q, i)
  {
    var p := RemoveAt(q, i);
    forall j | 0 <= j < |p| ensures p[j] != q[i] {
      assert p[j] == q[if j < i then j else j + 1];
    }
  }

  /** An order has one side and price, so it is in one queue. */
  lemma InOneQueue(orders: seq<Order>, key: Key, q: seq<OrderRef>, i: nat, k: Key, p: seq<OrderRef>)
    requires Linked(orders, key, q) && Linked(orders, k, p) && k != key && i < |q|
    ensures q[i] !in p
  {
  }

  /** `add`: arena `a` became `b`, with the new order in slot `ref` at the back of its queue. */
  /** A new order in a fresh or recycled slot `ref`, which was in no queue; the rest as it was but for links. */
  ghost predicate Placed(a: seq<Order>, free: seq<OrderRef>, queues: Queues, grown: seq<Order>, b: seq<Order>,
                         free': seq<OrderRef>, ref: OrderRef, order: Order) {
    && Allocated(a, free, grown, free', ref) && a <= grown && ref < |grown| <= NO_ORDER
    && InNoQueue(queues, ref) && SameCores(grown[ref := order], b)
  }

  lemma AddKeepsTied(a: seq<Order>, free: seq<OrderRef>, live: nat, index: map<OrderId, OrderRef>, queues: Queues,
                     m: Model, grown: seq<Order>, b: seq<Order>, free': seq<OrderRef>, ref: OrderRef, id: OrderId,
                     side: Side, price: int, qty: int)
    requires Tied(a, free, live, index, queues, m) && qty > 0 && id !in m.orders
    requires Placed(a, free, queues, grown, b, free', ref, NewOrder(id, side, price, qty))
    ensures Tied(b, free', live + 1, index[id := ref], PushBack(queues, Key(side, price), ref),
                 Apply(m, Add(id, side, price, qty)).0)
    ensures |b| == Peak(|a|, Add(id, side, price, qty), Apply(m, Add(id, side, price, qty)).0)
  {
    OthersStay(a, grown, ref, NewOrder(id, side, price, qty), b);
    var m' := Apply(m, Add(id, side, price, qty)).0;
    AddKeepsArena(a, free, live, b, free', ref);
    AddKeepsIndex(a, index, m, b, ref, id, m'.orders[id], m');
    AddKeepsCover(a, queues, b, ref);
    AddIsNewest(a, index, m, queues, b, ref, id, m');
    PushKeepsArrivals(a, m, queues, b, m', ref);
    ApplyKeepsModelOk(m, Add(id, side, price, qty));
  }

  lemma OthersStay(a: seq<Order>, grown: seq<Order>, ref: OrderRef, o: Order, b: seq<Order>)
    requires a <= grown && ref < |grown| && SameCores(grown[ref := o], b)
    ensures |b| == |grown| && SameButLinks(o, b[ref])
    ensures forall r :: 0 <= r < |a| && r != ref ==> SameButLinks(a[r], b[r])
  {
    assert grown[ref := o][ref] == o;
    forall r | 0 <= r < |a| && r != ref ensures SameButLinks(a[r], b[r]) {
      assert grown[ref := o][r] == a[r];
    }
  }

  lemma AddIsNewest(a: seq<Order>, index: map<OrderId, OrderRef>, m: Model, queues: Queues, b: seq<Order>,
                    ref: OrderRef, id: OrderId, m': Model)
    requires |a| <= |b| && ref < |b| && b[ref].id == id && id !in m.orders && InNoQueue(queues, ref)
    requires forall r :: 0 <= r < |a| && r != ref ==> SameButLinks(a[r], b[r])
    requires exists e: Entry :: e.arrival == m.nextArrival && m'.orders == m.orders[id := e]
    ensures Newest(a, m, queues, b, m', ref)
  {
  }

  /** `remove`: slot `ref` left its queue and died. */
  lemma RemoveKeepsTied(a: seq<Order>, free: seq<OrderRef>, live: nat, index: map<OrderId, OrderRef>, queues: Queues,
                        m: Model, b: seq<Order>, id: OrderId, key: Key, i: nat)
    requires Tied(a, free, live, index, queues, m) && LiveMembers(a, queues) && id in index
    requires key in queues && i < |queues[key]| && queues[key][i] == index[id]
        && InNoQueue(TakeOut(queues, key, i), index[id])
    requires |b| == |a| && !b[index[id]].live && b[index[id]].id == id
    requires forall r :: 0 <= r < |a| && r != index[id] ==> SameButLinks(a[r], b[r])
    ensures live > 0
    ensures Tied(b, free + [index[id]], live - 1, index - {id}, TakeOut(queues, key, i), Apply(m, Remove(id)).0)
  {
    hide ArenaOk, Covered, ArrivalsOk, ModelOk, InNoQueue, TakeOut, LiveMembers;
    var m' := Apply(m, Remove(id)).0;
    var ref := index[id];
    assert |m'.orders.Keys| == |m.orders.Keys| - 1 by { assert m'.orders.Keys == m.orders.Keys - {id}; }
    RemoveKeepsArena(a, free, live, b, ref);
    RemoveKeepsIndex(a, index, m, b, id, m');
    RemoveKeepsCover(a, queues, b, key, i);
    RemoveKeepsArrivals(a, index, queues, m, b, id, key, i, m');
    ApplyKeepsModelOk(m, Remove(id));
  }

  lemma RemoveKeepsArrivals(a: seq<Order>, index: map<OrderId, OrderRef>, queues: Queues, m: Model, b: seq<Order>,
                            id: OrderId, key: Key, i: nat, m': Model)
    requires ArrivalsOk(a, m, queues) && IndexOk(a, index, m) && id in index
    requires key in queues && i < |queues[key]| && InNoQueue(TakeOut(queues, key, i), index[id])
    requires |b| == |a| && forall r :: 0 <= r < |a| ==> b[r].id == a[r].id
    requires LiveMembers(a, queues) && m'.orders == m.orders - {id}
    ensures ArrivalsOk(b, m', TakeOut(queues, key, i))
  {
    var queues' := TakeOut(queues, key, i);
    TakeOutKeepsArrivals(a, m, queues, b, key, i);
    forall k: Key ensures ArrivalsAt(b, m', queues', k) {
      assert ArrivalsAt(b, m, queues', k);
      if k in queues' {
        forall r | r in queues'[k] ensures b[r].id != id {
          TakeOutMembers(queues, key, i, k, r);
        }
        ArrivalOrderKept(b, m, b, m', queues'[k]);
      }
    }
  }

  /** What is left in a queue was there before. */
  lemma TakeOutMembers(queues: Queues, key: Key, i: nat, k: Key, r: OrderRef)
    requires key in queues && i < |queues[key]| && k in TakeOut(queues, key, i) && r in TakeOut(queues, key, i)[k]
    ensures k in queues && r in queues[k]
  {
  }

  /** An increase: the order left its place and stands at the back under a new arrival number. */
  lemma RequeueKeepsTied(a: seq<Order>, free: seq<OrderRef>, live: nat, index: map<OrderId, OrderRef>, queues: Queues,
                         m: Model, b: seq<Order>, id: OrderId, key: Key, i: nat, m': Model)
    requires Tied(a, free, live, index, queues, m) && LiveMembers(a, queues) && id in index && SameCores(a, b)
    requires key in queues && i < |queues[key]| && queues[key][i] == index[id] && KeyOf(a[index[id]]) == key
    requires InNoQueue(TakeOut(queues, key, i), index[id])
    requires m' == Model(m.orders[id := m.orders[id].(arrival := m.nextArrival)], m.nextArrival + 1)
    ensures Tied(b, free, live, index, PushBack(TakeOut(queues, key, i), key, index[id]), m')
  {
    RelinkKeepsArena(a, b, free, live);
    RequeueKeepsModelOk(m, id, m');
    RequeueKeepsArrivals(a, index, queues, m, b, id, key, i, m');
    RequeueKeepsCover(a, queues, b, key, i);
    RequeueKeepsIndex(a, index, m, b, id, m');
  }

  lemma RelinkKeepsArena(a: seq<Order>, b: seq<Order>, free: seq<OrderRef>, live: nat)
    requires ArenaOk(a, free, live) && SameCores(a, b)
    ensures ArenaOk(b, free, live)
  {
  }

  lemma RequeueKeepsModelOk(m: Model, id: OrderId, m': Model)
    requires ModelOk(m) && id in m.orders
    requires m' == Model(m.orders[id := m.orders[id].(arrival := m.nextArrival)], m.nextArrival + 1)
    ensures ModelOk(m') && |m'.orders| == |m.orders|
  {
    assert m'.orders.Keys == m.orders.Keys;
    assert |m'.orders.Keys| == |m.orders.Keys|;
  }

  lemma RequeueKeepsArrivals(a: seq<Order>, index: map<OrderId, OrderRef>, queues: Queues, m: Model, b: seq<Order>,
                             id: OrderId, key: Key, i: nat, m': Model)
    requires IndexOk(a, index, m) && ArrivalsOk(a, m, queues) && ModelOk(m) && LiveMembers(a, queues)
    requires id in index && SameCores(a, b)
    requires key in queues && i < |queues[key]| && queues[key][i] == index[id] && KeyOf(a[index[id]]) == key
    requires InNoQueue(TakeOut(queues, key, i), index[id])
    requires m'.orders == m.orders[id := m.orders[id].(arrival := m.nextArrival)]
    ensures ArrivalsOk(b, m', PushBack(TakeOut(queues, key, i), key, index[id]))
  {
    var rest := TakeOut(queues, key, i);
    TakeOutKeepsArrivals(a, m, queues, a, key, i);
    RestIsLive(a, queues, key, i);
    RequeueIsNewest(a, index, m, rest, b, id, m');
    PushKeepsArrivals(a, m, rest, b, m', index[id]);
  }

  lemma RestIsLive(orders: seq<Order>, queues: Queues, key: Key, i: nat)
    requires LiveMembers(orders, queues) && key in queues && i < |queues[key]|
    ensures LiveMembers(orders, TakeOut(queues, key, i))
  {
    var rest := TakeOut(queues, key, i);
    forall k, j | k in rest && 0 <= j < |rest[k]|
      ensures rest[k][j] < |orders| && orders[rest[k][j]].live
    {
      assert rest[k][j] == queues[k][if k == key && j >= i then j + 1 else j];
    }
  }

  lemma RequeueKeepsIndex(a: seq<Order>, index: map<OrderId, OrderRef>, m: Model, b: seq<Order>, id: OrderId, m': Model)
    requires IndexOk(a, index, m) && id in index && SameCores(a, b)
    requires m'.orders == m.orders[id := m.orders[id].(arrival := m.nextArrival)]
    ensures IndexOk(b, index, m')
  {
    assert m'.orders.Keys == m.orders.Keys;
  }

  lemma RequeueIsNewest(a: seq<Order>, index: map<OrderId, OrderRef>, m: Model, rest: Queues, b: seq<Order>,
                        id: OrderId, m': Model)
    requires IndexOk(a, index, m) && id in index && SameCores(a, b) && InNoQueue(rest, index[id])
    requires m'.orders == m.orders[id := m.orders[id].(arrival := m.nextArrival)]
    requires LiveMembers(a, rest)
    ensures Newest(a, m, rest, b, m', index[id])
  {
  }

  lemma RequeueKeepsCover(a: seq<Order>, queues: Queues, b: seq<Order>, key: Key, i: nat)
    requires Covered(a, queues) && key in queues && i < |queues[key]| && SameCores(a, b)
    requires queues[key][i] < |a| && KeyOf(a[queues[key][i]]) == key
    ensures Covered(b, PushBack(TakeOut(queues, key, i), key, queues[key][i]))
  {
    var q := queues[key];
    var after := PushBack(TakeOut(queues, key, i), key, q[i]);
    forall r | 0 <= r < |b| && b[r].live ensures KeyOf(b[r]) in after && r in after[KeyOf(b[r])] {
      assert KeyOf(b[r]) == KeyOf(a[r]) && r in queues[KeyOf(a[r])];
      if r == q[i] {
        assert after[key][|after[key]| - 1] == r;
      } else if KeyOf(b[r]) == key {
        MemberAfterRemoveAt(q, i, r);
        assert r in RemoveAt(q, i);
      }
    }
  }

  /** A size change in place. */
  lemma ResizeKeepsTied(a: seq<Order>, b: seq<Order>, free: seq<OrderRef>, live: nat, index: map<OrderId, OrderRef>,
                        queues: Queues, m: Model, id: OrderId, qty: int)
    requires Tied(a, free, live, index, queues, m) && id in index && qty > 0
    requires b == a[index[id] := a[index[id]].(qty := qty)]
    ensures Tied(b, free, live, index, queues, Resized(m, id, qty))
  {
    ResizeKeepsArrivals(a, b, queues, m, index[id], id, qty);
    ResizeKeepsRest(a, b, free, live, index, queues, m, id, qty);
    ResizeKeepsModelOk(m, id, qty);
  }

  lemma ResizeKeepsModelOk(m: Model, id: OrderId, qty: int)
    requires ModelOk(m) && id in m.orders && qty > 0
    ensures ModelOk(Resized(m, id, qty)) && |Resized(m, id, qty).orders| == |m.orders|
  {
    assert Resized(m, id, qty).orders.Keys == m.orders.Keys;
    assert |Resized(m, id, qty).orders.Keys| == |m.orders.Keys|;
  }

  lemma ResizeKeepsQueues(a: seq<Order>, b: seq<Order>, bids: map<int, L3Level>, asks: map<int, L3Level>,
                          bids': map<int, L3Level>, asks': map<int, L3Level>, queues: Queues, key: Key, i: nat,
                              qty: int)
    requires QueuesOk(a, bids, asks, queues) && key in queues && i < |queues[key]| && queues[key][i] < |a|
    requires b == a[queues[key][i] := a[queues[key][i]].(qty := qty)]
    requires AgreeOff(key, bids, asks, bids', asks')
    requires key.price in LevelsOf(key.side, bids, asks) && key.price in LevelsOf(key.side, bids', asks')
    requires LevelsOf(key.side, bids', asks')[key.price] ==
             var lvl := LevelsOf(key.side, bids, asks)[key.price];
             lvl.(qty := lvl.qty + qty - a[queues[key][i]].qty)
    ensures QueuesOk(b, bids', asks', queues)
  {
    QueueEnds(a, bids, asks, queues, key);
    SumRefsResize(a, queues[key], i, qty);
    ResizeKeepsChain(a, b, key, queues[key], i, qty);
    OneQueueChanged(a, b, bids, asks, bids', asks', queues, queues, key);
  }

  lemma ResizeKeepsChain(a: seq<Order>, b: seq<Order>, key: Key, q: seq<OrderRef>, i: nat, qty: int)
    requires Linked(a, key, q) && i < |q| && b == a[q[i] := a[q[i]].(qty := qty)]
    ensures Linked(b, key, q)
    ensures forall r :: 0 <= r < |a| && KeyOf(a[r]) != key ==> b[r] == a[r]
  {
  }

  /** What the id table's answer means in the arena. */
  lemma FoundOrder(orders: seq<Order>, free: seq<OrderRef>, live: nat, index: map<OrderId, OrderRef>, queues: Queues,
                   m: Model, id: OrderId)
    requires Tied(orders, free, live, index, queues, m)
    ensures id in index <==> id in m.orders
    ensures |orders| <= NO_ORDER
    ensures free != [] ==> free[|free| - 1] < |orders|
    ensures id in index ==>
              && index[id] < |orders| && orders[index[id]].live
              && orders[index[id]].id == id && SameEntry(orders[index[id]], m.orders[id])
  {
  }

  lemma QueuePlace(orders: seq<Order>, free: seq<OrderRef>, live: nat, index: map<OrderId, OrderRef>, queues: Queues,
                   m: Model, ref: OrderRef) returns (i: nat)
    requires Tied(orders, free, live, index, queues, m) && ref < |orders| && orders[ref].live
    ensures KeyOf(orders[ref]) in queues
    ensures i < |queues[KeyOf(orders[ref])]| && queues[KeyOf(orders[ref])][i] == ref
  {
    var q := queues[KeyOf(orders[ref])];
    i :| 0 <= i < |q| && q[i] == ref;
  }

  /** The slot just allocated is in no queue, so the new order can be written there. */
  lemma NewSlot(a: seq<Order>, free: seq<OrderRef>, live: nat, index: map<OrderId, OrderRef>, queues: Queues,
                m: Model, bids: map<int, L3Level>, asks: map<int, L3Level>, grown: seq<Order>, free': seq<OrderRef>,
                ref: OrderRef, o: Order)
    requires Tied(a, free, live, index, queues, m) && QueuesOk(a, bids, asks, queues)
    requires Allocated(a, free, grown, free', ref) && a <= grown && ref < |grown|
    ensures InNoQueue(queues, ref) && QueuesOk(grown[ref := o], bids, asks, queues)
  {
    hide QueuesOk;
    assert free != [] ==> free[|free| - 1] == ref;
    DeadIsUnqueued(a, bids, asks, queues, ref);
    UnqueuedSlotIsFree(a, grown[ref := o], bids, asks, queues, ref);
  }

  lemma EmptyBookOk(m: Model)
    ensures QueuesOk([], map[], map[], map[])
    ensures m.orders == map[] ==> Tied([], [], 0, map[], map[], m)
  {
  }

  lemma ArenaFacts(orders: seq<Order>, free: seq<OrderRef>, live: nat, index: map<OrderId, OrderRef>, queues: Queues,
      m: Model)
    requires Tied(orders, free, live, index, queues, m)
    ensures |orders| == |m.orders| + |free| && live == |m.orders|
    ensures forall i :: 0 <= i < |free| ==> free[i] < |orders| && !orders[free[i]].live
  {
  }

  /** An arena that did not grow still holds every live order. */
  lemma SamePeak(orders: seq<Order>, free: seq<OrderRef>, live: nat, index: map<OrderId, OrderRef>, queues: Queues,
      m: Model, op: Op)
    requires Tied(orders, free, live, index, queues, m) && !op.Clear?
    ensures |orders| == Peak(|orders|, op, m)
  {
  }
}
