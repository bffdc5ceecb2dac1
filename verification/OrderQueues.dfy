/** The intrusive doubly-linked queues of the L3 book, over an arena of orders. */
module OrderQueues {
  import opened CoreTypes
  import opened OrderTable

  datatype Order = Order(id: OrderId, price: int, qty: int, side: Side, prev: OrderRef, next: OrderRef, live: bool)

  const BLANK_ORDER := Order(0, 0, 0, Bid, NO_ORDER, NO_ORDER, false)

  /** Aggregate state of one price level. */
  datatype L3Level = L3Level(qty: int, orders: int, head: OrderRef, tail: OrderRef)

  const BLANK_LEVEL := L3Level(0, 0, NO_ORDER, NO_ORDER)

  datatype Key = Key(side: Side, price: int)
  type Queues = map<Key, seq<OrderRef>>

  function KeyOf(o: Order): Key { Key(o.side, o.price) }

  /** Everything about an order but its links. */
  predicate SameButLinks(o: Order, p: Order) { o.(prev := p.prev, next := p.next) == p }

  function PrevIn(q: seq<OrderRef>, i: nat): OrderRef
    requires i < |q|
  { if i == 0 then NO_ORDER else q[i - 1] }

  function NextIn(q: seq<OrderRef>, i: nat): OrderRef
    requires i < |q|
  { if i == |q| - 1 then NO_ORDER else q[i + 1] }

  function RemoveAt(q: seq<OrderRef>, i: nat): seq<OrderRef>
    requires i < |q|
  { q[..i] + q[i + 1..] }

  ghost predicate Refs(orders: seq<Order>, q: seq<OrderRef>) {
    forall i :: 0 <= i < |q| ==> q[i] < |orders|
  }

  ghost function SumRefs(orders: seq<Order>, q: seq<OrderRef>): int
    requires Refs(orders, q)
  {
    if q == [] then 0 else SumRefs(orders, q[..|q| - 1]) + orders[q[|q| - 1]].qty
  }

  /** `q` is a well-formed queue at `key`: distinct live orders of that level, linked both ways. */
  ghost predicate Linked(orders: seq<Order>, key: Key, q: seq<OrderRef>) {
    && Refs(orders, q)
    && (forall i :: 0 <= i < |q| ==> orders[q[i]].live && KeyOf(orders[q[i]]) == key)
    && (forall i, j :: 0 <= i < j < |q| ==> q[i] != q[j])
    && (forall i {:trigger PrevIn(q, i)} :: 0 <= i < |q| ==> orders[q[i]].prev == PrevIn(q, i))
    && (forall i {:trigger NextIn(q, i)} :: 0 <= i < |q| ==> orders[q[i]].next == NextIn(q, i))
  }

  /** `lvl` carries the total, the count and the two ends of `q`. */
  ghost predicate Summarises(orders: seq<Order>, q: seq<OrderRef>, lvl: L3Level)
    requires Refs(orders, q)
  {
    q != [] && lvl == L3Level(SumRefs(orders, q), |q|, q[0], q[|q| - 1])
  }

  function LevelsOf(side: Side, bids: map<int, L3Level>, asks: map<int, L3Level>): map<int, L3Level> {
    if side.Bid? then bids else asks
  }

  ghost predicate QueueOk(orders: seq<Order>, key: Key, q: seq<OrderRef>, levels: map<int, L3Level>) {
    key.price in levels && Linked(orders, key, q) && Summarises(orders, q, levels[key.price])
  }

  /** The level at `key`, if any, is its queue's summary; no level is left without a queue. */
  ghost predicate KeyOk(orders: seq<Order>, bids: map<int, L3Level>, asks: map<int, L3Level>, queues: Queues,
      key: Key) {
    && (key in queues ==> QueueOk(orders, key, queues[key], LevelsOf(key.side, bids, asks)))
    && (key.price in LevelsOf(key.side, bids, asks) ==> key in queues)
  }

  ghost predicate QueuesOk(orders: seq<Order>, bids: map<int, L3Level>, asks: map<int, L3Level>, queues: Queues) {
    forall key :: KeyOk(orders, bids, asks, queues, key)
  }

  // ----- sums -----

  lemma {:induction false} SumRefsSame(a: seq<Order>, b: seq<Order>, q: seq<OrderRef>)
    requires Refs(a, q) && Refs(b, q)
    requires forall i :: 0 <= i < |q| ==> a[q[i]].qty == b[q[i]].qty
    ensures SumRefs(a, q) == SumRefs(b, q)
  {
    if q != [] { SumRefsSame(a, b, q[..|q| - 1]); }
  }

  lemma {:induction false} SumRefsRemoveAt(orders: seq<Order>, q: seq<OrderRef>, i: nat)
    requires Refs(orders, q) && i < |q|
    ensures Refs(orders, RemoveAt(q, i))
    ensures SumRefs(orders, RemoveAt(q, i)) == SumRefs(orders, q) - orders[q[i]].qty
  {
    var n := |q| - 1;
    if i == n {
      assert RemoveAt(q, i) == q[..n];
    } else {
      SumRefsRemoveAt(orders, q[..n], i);
      assert RemoveAt(q, i) == RemoveAt(q[..n], i) + [q[n]];
      SumRefsAppend(orders, RemoveAt(q[..n], i), q[n]);
    }
  }

  lemma {:induction false} SumRefsAppend(orders: seq<Order>, q: seq<OrderRef>, r: OrderRef)
    requires Refs(orders, q) && r < |orders|
    ensures Refs(orders, q + [r])
    ensures SumRefs(orders, q + [r]) == SumRefs(orders, q) + orders[r].qty
  {
    assert (q + [r])[..|q|] == q;
  }

  /** Changing one member's size changes the total by the same amount. */
  lemma {:induction false} SumRefsResize(orders: seq<Order>, q: seq<OrderRef>, i: nat, qty: int)
    requires Refs(orders, q) && i < |q|
    requires forall a, b :: 0 <= a < b < |q| ==> q[a] != q[b]
    ensures SumRefs(orders[q[i] := orders[q[i]].(qty := qty)], q) == SumRefs(orders, q) + qty - orders[q[i]].qty
  {
    var n := |q| - 1;
    var resized := orders[q[i] := orders[q[i]].(qty := qty)];
    if i == n {
      SumRefsSame(orders, resized, q[..n]);
    } else {
      SumRefsResize(orders, q[..n], i, qty);
    }
  }

  // ----- frames -----

  /** A queue whose orders did not change is untouched. */
  lemma QueueKept(a: seq<Order>, b: seq<Order>, key: Key, q: seq<OrderRef>)
    requires Linked(a, key, q) && Refs(b, q)
    requires forall i :: 0 <= i < |q| ==> b[q[i]] == a[q[i]]
    ensures Linked(b, key, q) && SumRefs(b, q) == SumRefs(a, q)
  {
    SumRefsSame(a, b, q);
  }

  function OtherSide(side: Side): Side { if side.Bid? then Ask else Bid }

  /** The level maps agree everywhere but at `key`. */
  ghost predicate AgreeOff(key: Key, bids: map<int, L3Level>, asks: map<int, L3Level>,
                           bids': map<int, L3Level>, asks': map<int, L3Level>) {
    && LevelsOf(key.side, bids', asks') - {key.price} == LevelsOf(key.side, bids, asks) - {key.price}
    && LevelsOf(OtherSide(key.side), bids', asks') == LevelsOf(OtherSide(key.side), bids, asks)
  }

  lemma AgreeOffAt(key: Key, bids: map<int, L3Level>, asks: map<int, L3Level>,
                   bids': map<int, L3Level>, asks': map<int, L3Level>, k: Key)
    requires AgreeOff(key, bids, asks, bids', asks') && k != key
    ensures k.price in LevelsOf(k.side, bids, asks) <==> k.price in LevelsOf(k.side, bids', asks')
    ensures k.price in LevelsOf(k.side, bids, asks) ==>
              LevelsOf(k.side, bids', asks')[k.price] == LevelsOf(k.side, bids, asks)[k.price]
  {
    if k.side == key.side {
      var u, v := LevelsOf(k.side, bids, asks), LevelsOf(k.side, bids', asks');
      assert k.price in u <==> k.price in u - {key.price};
      assert k.price in v <==> k.price in v - {key.price};
      assert k.price in u ==> (u - {key.price})[k.price] == u[k.price];
    }
  }

  /** Changing orders of one level, and that level's entry, keeps every other queue. */
  lemma OneQueueChanged(a: seq<Order>, b: seq<Order>, bids: map<int, L3Level>, asks: map<int, L3Level>,
                        bids': map<int, L3Level>, asks': map<int, L3Level>, queues: Queues, queues': Queues, key: Key)
    requires QueuesOk(a, bids, asks, queues)
    requires |a| <= |b| && forall r :: 0 <= r < |a| && a[r].live && KeyOf(a[r]) != key ==> b[r] == a[r]
    requires AgreeOff(key, bids, asks, bids', asks')
    requires queues' - {key} == queues - {key}
    requires key in queues' ==> QueueOk(b, key, queues'[key], LevelsOf(key.side, bids', asks'))
    requires key !in queues' ==> key.price !in LevelsOf(key.side, bids', asks')
    ensures QueuesOk(b, bids', asks', queues')
  {
    forall k: Key ensures KeyOk(b, bids', asks', queues', k) {
      if k != key {
        AgreeOffAt(key, bids, asks, bids', asks', k);
        assert k in queues' <==> k in queues' - {key};
        assert k in queues <==> k in queues - {key};
        assert KeyOk(a, bids, asks, queues, k);
        if k in queues {
          assert queues'[k] == (queues' - {key})[k] == queues[k];
          QueueKept(a, b, k, queues[k]);
        }
      }
    }
  }

  // ----- unlink and link_back -----

  /** The arena after taking q[i] out of its chain. */
  ghost predicate UnlinkedAt(a: seq<Order>, b: seq<Order>, q: seq<OrderRef>, i: nat)
    requires Refs(a, q) && i < |q|
  {
    && |b| == |a|
    && (forall r :: 0 <= r < |a| && r !in q ==> b[r] == a[r])
    && (forall j :: 0 <= j < |q| ==> SameButLinks(a[q[j]], b[q[j]]))
    && (forall j :: 0 <= j < |q| && j != i && j != i + 1 ==> b[q[j]].prev == a[q[j]].prev)
    && (forall j :: 0 <= j < |q| && j != i && j != i - 1 ==> b[q[j]].next == a[q[j]].next)
    && (i > 0 ==> b[q[i - 1]].next == a[q[i]].next)
    && (i + 1 < |q| ==> b[q[i + 1]].prev == a[q[i]].prev)
  }

  predicate Distinct(q: seq<OrderRef>) { forall a, b :: 0 <= a < b < |q| ==> q[a] != q[b] }

  /** The arena with an order's neighbours joined and its own links cleared. */
  function Splice(a: seq<Order>, ref: OrderRef): (b: seq<Order>)
    requires ref < |a| && (a[ref].prev == NO_ORDER || a[ref].prev < |a|)
    requires a[ref].next == NO_ORDER || a[ref].next < |a|
  {
    var prev, next := a[ref].prev, a[ref].next;
    var left := if prev == NO_ORDER then a else a[prev := a[prev].(next := next)];
    var both := if next == NO_ORDER then left else left[next := left[next].(prev := prev)];
    both[ref := both[ref].(prev := NO_ORDER, next := NO_ORDER)]
  }

  /** What splicing out `ref` does to one order. */
  lemma SpliceAt(a: seq<Order>, ref: OrderRef, r: OrderRef)
    requires ref < |a| <= NO_ORDER && (a[ref].prev == NO_ORDER || a[ref].prev < |a|)
    requires a[ref].next == NO_ORDER || a[ref].next < |a|
    requires r < |a|
    ensures var b, prev, next := Splice(a, ref), a[ref].prev, a[ref].next;
            && |b| == |a| && SameButLinks(a[r], b[r])
            && (r != ref ==> b[r].next == if r == prev then next else a[r].next)
            && (r != ref ==> b[r].prev == if r == next then prev else a[r].prev)
            && (r != ref && r != prev && r != next ==> b[r] == a[r])
  {
  }

  lemma SplicedIsUnlinked(a: seq<Order>, b: seq<Order>, q: seq<OrderRef>, i: nat)
    requires Refs(a, q) && Distinct(q) && i < |q| && |a| <= NO_ORDER
    requires a[q[i]].prev == PrevIn(q, i) && a[q[i]].next == NextIn(q, i)
    requires b == Splice(a, q[i])
    ensures UnlinkedAt(a, b, q, i)
    ensures |a| == |b| && forall r :: 0 <= r < |a| ==> SameButLinks(a[r], b[r])
  {
    hide Splice, SameButLinks;
    forall r: OrderRef | r < |a|
      ensures |b| == |a| && SameButLinks(a[r], b[r])
      ensures r !in q ==> b[r] == a[r]
    {
      SpliceAt(a, q[i], r);
    }
    forall j | 0 <= j < |q|
      ensures j != i && j != i + 1 ==> b[q[j]].prev == a[q[j]].prev
      ensures j != i && j != i - 1 ==> b[q[j]].next == a[q[j]].next
      ensures j == i - 1 ==> b[q[j]].next == a[q[i]].next
      ensures j == i + 1 ==> b[q[j]].prev == a[q[i]].prev
    {
      SpliceAt(a, q[i], q[j]);
    }
  }

  lemma UnlinkedNeighbours(a: seq<Order>, b: seq<Order>, key: Key, q: seq<OrderRef>, i: nat, j: nat)
    requires Linked(a, key, q) && i < |q| && UnlinkedAt(a, b, q, i) && j < |q| - 1
    ensures RemoveAt(q, i)[j] < |b|
    ensures b[RemoveAt(q, i)[j]].prev == PrevIn(RemoveAt(q, i), j)
    ensures b[RemoveAt(q, i)[j]].next == NextIn(RemoveAt(q, i), j)
  {
    var k := if j < i then j else j + 1;
    LinksAt(a, key, q, k);
    LinksAt(a, key, q, i);
    NeighboursWithout(q, i, j);
  }

  lemma LinksAt(a: seq<Order>, key: Key, q: seq<OrderRef>, i: nat)
    requires Linked(a, key, q) && i < |q|
    ensures Refs(a, q) && a[q[i]].prev == PrevIn(q, i) && a[q[i]].next == NextIn(q, i)
  {
  }

  /** Who stands beside whom once q[i] is gone. */
  lemma NeighboursWithout(q: seq<OrderRef>, i: nat, j: nat)
    requires i < |q| && j < |q| - 1
    ensures var p, k := RemoveAt(q, i), if j < i then j else j + 1;
            && p[j] == q[k]
            && PrevIn(p, j) == (if k == i + 1 then PrevIn(q, i) else PrevIn(q, k))
            && NextIn(p, j) == (if k + 1 == i then NextIn(q, i) else NextIn(q, k))
  {
    assert forall n :: 0 <= n < |q| - 1 ==> RemoveAt(q, i)[n] == q[if n < i then n else n + 1];
  }

  lemma UnlinkKeepsChain(a: seq<Order>, b: seq<Order>, key: Key, q: seq<OrderRef>, i: nat)
    requires Linked(a, key, q) && i < |q| && UnlinkedAt(a, b, q, i)
    ensures Linked(b, key, RemoveAt(q, i))
    ensures SumRefs(b, RemoveAt(q, i)) == SumRefs(a, q) - a[q[i]].qty
  {
    hide SumRefs, PrevIn, NextIn;
    var p := RemoveAt(q, i);
    RestIsSame(a, b, key, q, i);
    SumRefsRemoveAt(a, q, i);
    SumRefsSame(a, b, p);
    forall j | 0 <= j < |p|
      ensures b[p[j]].prev == PrevIn(p, j) && b[p[j]].next == NextIn(p, j)
    {
      UnlinkedNeighbours(a, b, key, q, i, j);
    }
  }

  /** The orders left in the chain are those that were there, unchanged but for their links. */
  lemma RestIsSame(a: seq<Order>, b: seq<Order>, key: Key, q: seq<OrderRef>, i: nat)
    requires Linked(a, key, q) && i < |q| && UnlinkedAt(a, b, q, i)
    ensures var p := RemoveAt(q, i);
            && (forall j :: 0 <= j < |p| ==>
                  p[j] < |b| && SameButLinks(a[p[j]], b[p[j]]) && a[p[j]].live && KeyOf(a[p[j]]) == key)
            && (forall j, k :: 0 <= j < k < |p| ==> p[j] != p[k])
  {
    hide PrevIn, NextIn;
    var p := RemoveAt(q, i);
    forall j | 0 <= j < |p| ensures p[j] == q[if j < i then j else j + 1] {}
  }

  ghost predicate LinkedAtBack(a: seq<Order>, b: seq<Order>, q: seq<OrderRef>, ref: OrderRef)
    requires Refs(a, q) && ref < |a|
  {
    && |b| == |a|
    && (forall r :: 0 <= r < |a| && r != ref && (q != [] ==> r != q[|q| - 1]) ==> b[r] == a[r])
    && b[ref] == a[ref].(prev := if q == [] then NO_ORDER else q[|q| - 1], next := NO_ORDER)
    && (q != [] ==> b[q[|q| - 1]] == a[q[|q| - 1]].(next := ref))
  }

  lemma LinkBackKeepsChain(a: seq<Order>, b: seq<Order>, key: Key, q: seq<OrderRef>, ref: OrderRef)
    requires Linked(a, key, q) && ref < |a| && ref !in q && a[ref].live && KeyOf(a[ref]) == key
    requires LinkedAtBack(a, b, q, ref)
    ensures Linked(b, key, q + [ref])
    ensures SumRefs(b, q + [ref]) == SumRefs(a, q) + a[ref].qty
  {
    SumRefsAppend(b, q, ref);
    SumRefsSame(a, b, q);
    var p := q + [ref];
    forall j | 0 <= j < |p|
      ensures b[p[j]].prev == PrevIn(p, j) && b[p[j]].next == NextIn(p, j)
    {
      if j < |q| { assert a[q[j]].prev == PrevIn(q, j) && a[q[j]].next == NextIn(q, j); }
    }
  }
}
