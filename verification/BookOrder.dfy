/** A side of a book as a map from price to quantity, and its one listing in book order. */
module BookOrder {
  import opened CoreTypes

  ghost predicate InBookOrder(side: Side, out: seq<Level>) {
    forall i, j :: 0 <= i < j < |out| ==> Precedes(side, out[i].price, out[j].price)
  }

  /** `out` holds exactly the levels of `m`. */
  ghost predicate HasLevels(m: map<int, int>, out: seq<Level>) {
    forall l :: l in out <==> l.price in m && m[l.price] == l.qty
  }

  /** `out` lists exactly the levels of `m`, strictly in book order. */
  ghost predicate Lists(side: Side, m: map<int, int>, out: seq<Level>) {
    InBookOrder(side, out) && HasLevels(m, out)
  }

  /** `p` is in `s` and comes before everything else there. */
  ghost predicate IsTouch(side: Side, s: set<int>, p: int) {
    p in s && forall q :: q in s && q != p ==> Precedes(side, p, q)
  }

  lemma {:induction false} TouchExists(side: Side, s: set<int>)
    requires s != {}
    ensures exists p :: IsTouch(side, s, p)
  {
    assert (forall x :: x !in s) ==> s == {};
    var x :| x in s;
    var rest := s - {x};
    if rest == {} {
      assert s == {x};
      assert IsTouch(side, s, x);
    } else {
      TouchExists(side, rest);
      var p :| IsTouch(side, rest, p);
      var best := if Precedes(side, x, p) then x else p;
      forall q | q in s && q != best ensures Precedes(side, best, q) {
        assert q == x || q in rest;
      }
      assert IsTouch(side, s, best);
    }
  }

  /** The price nearest the touch. */
  function Touch(side: Side, s: set<int>): (p: int)
    requires s != {}
    ensures IsTouch(side, s, p)
  {
    TouchExists(side, s);
    var p :| p in s && forall q :: q in s && q != p ==> Precedes(side, p, q);
    p
  }

  /** The levels of `m`, nearest the touch first: what iterating a std::map in book order visits. */
  function InOrder(side: Side, m: map<int, int>): (out: seq<Level>)
    ensures |out| == |m|
    decreases |m|
  {
    if m == map[] then []
    else
      var p := Touch(side, m.Keys);
      assert (m - {p}).Keys == m.Keys - {p};
      [Level(p, m[p])] + InOrder(side, m - {p})
  }

  /** Taking the touch off a book takes the first level off its listing. */
  lemma InOrderStep(side: Side, m: map<int, int>, p: int)
    requires IsTouch(side, m.Keys, p)
    ensures InOrder(side, m) == [Level(p, m[p])] + InOrder(side, m - {p})
  {
    var t := Touch(side, m.Keys);
    assert t == p;
  }

  lemma TouchThenRestLists(side: Side, m: map<int, int>, p: int, tail: seq<Level>)
    requires IsTouch(side, m.Keys, p) && Lists(side, m - {p}, tail)
    ensures Lists(side, m, [Level(p, m[p])] + tail)
  {
    var out := [Level(p, m[p])] + tail;
    forall l ensures l in out <==> l.price in m && m[l.price] == l.qty {
      assert l in out <==> l == Level(p, m[p]) || l in tail;
    }
    forall j | 1 <= j < |out| ensures Precedes(side, p, out[j].price) {
      assert tail[j - 1] in tail;
    }
  }

  lemma {:induction false} InOrderLists(side: Side, m: map<int, int>)
    ensures Lists(side, m, InOrder(side, m))
    decreases |m|
  {
    if m != map[] {
      var p := Touch(side, m.Keys);
      InOrderLists(side, m - {p});
      TouchThenRestLists(side, m, p, InOrder(side, m - {p}));
    }
  }

  lemma EmptyTogether(m: map<int, int>, out: seq<Level>)
    requires HasLevels(m, out)
    ensures out == [] <==> m == map[]
  {
    if out != [] { assert out[0] in out; }
    if m != map[] {
      assert (forall x :: x !in m) ==> m == map[];
      var p :| p in m;
      assert Level(p, m[p]) in out;
    }
  }

  /** A strictly ordered listing of a map's levels is unique. */
  lemma {:induction false} ListingIsUnique(side: Side, m: map<int, int>, out: seq<Level>)
    requires Lists(side, m, out)
    ensures out == InOrder(side, m)
    decreases |m|
  {
    EmptyTogether(m, out);
    if out != [] {
      assert out[0] in out;
      var p := Touch(side, m.Keys);
      assert Level(p, m[p]) in out;
      assert out[0] == Level(p, m[p]);
      var rest := m - {p};
      assert rest.Keys == m.Keys - {p};
      var tail := out[1..];
      TailLists(side, m, out, p);
      ListingIsUnique(side, rest, tail);
      assert out == [out[0]] + tail;
    }
  }

  lemma TailLists(side: Side, m: map<int, int>, out: seq<Level>, p: int)
    requires Lists(side, m, out) && out != [] && out[0].price == p
    ensures Lists(side, m - {p}, out[1..])
  {
    assert out == [out[0]] + out[1..];
    assert out[0] in out;
    forall l ensures l in out[1..] <==> l.price in m - {p} && (m - {p})[l.price] == l.qty {
      if l in out[1..] {
        assert l in out;
      }
      assert l in out <==> l == out[0] || l in out[1..];
    }
  }

  /** What a visitor sees when it walks `all` in order and stops at the first item after which
      `more`, given everything seen so far, answers false. */
  function Visited<T>(all: seq<T>, more: seq<T> -> bool): (seen: seq<T>)
    ensures seen <= all
  {
    VisitedFrom(all, 0, more)
  }

  function VisitedFrom<T>(all: seq<T>, from: nat, more: seq<T> -> bool): (seen: seq<T>)
    requires from <= |all|
    ensures all[..from] <= seen <= all
    decreases |all| - from
  {
    if from == |all| then all
    else if !more(all[..from + 1]) then all[..from + 1]
    else VisitedFrom(all, from + 1, more)
  }

  /** Showing the visitor one more item either ends the visit or moves it on. */
  lemma VisitStep<T>(all: seq<T>, from: nat, more: seq<T> -> bool)
    requires from < |all| && Visited(all, more) == VisitedFrom(all, from, more)
    ensures Visited(all, more) ==
            if more(all[..from + 1]) then VisitedFrom(all, from + 1, more) else all[..from + 1]
  {
  }

  lemma StartVisit<T>(all: seq<T>, more: seq<T> -> bool)
    ensures Visited(all, more) == VisitedFrom(all, 0, more)
  {
  }

  lemma EndVisit<T>(all: seq<T>, from: nat, more: seq<T> -> bool)
    requires from == |all|
    ensures VisitedFrom(all, from, more) == all == all[..from]
  {
  }

  /** A visitor that never stops sees everything. */
  lemma {:induction false} VisitAll<T>(all: seq<T>, from: nat, more: seq<T> -> bool)
    requires from <= |all| && forall s :: more(s)
    ensures VisitedFrom(all, from, more) == all
    decreases |all| - from
  {
    if from < |all| { VisitAll(all, from + 1, more); }
  }

  /** Walking an ordered list of levels and showing each to the visitor. */
  method Walk(all: seq<Level>, more: seq<Level> -> bool) returns (seen: seq<Level>)
    ensures seen == Visited(all, more)
  {
    var i := 0;
    while i < |all|
      invariant 0 <= i <= |all|
      invariant Visited(all, more) == VisitedFrom(all, i, more)
    {
      if !more(all[..i + 1]) {
        return all[..i + 1];
      }
      i := i + 1;
    }
    return all;
  }

  /** A visit shows a front of the listing: the visitor agreed to every part of it but the whole, and it
      is all there is unless the visitor then declined. */
  lemma VisitIs<T>(all: seq<T>, more: seq<T> -> bool)
    ensures var seen := Visited(all, more);
            && seen <= all && (forall k :: 0 < k < |seen| ==> more(all[..k]))
            && (seen != all ==> seen != [] && !more(seen))
  {
    VisitFromIs(all, 0, more);
  }

  lemma {:induction false} VisitFromIs<T>(all: seq<T>, from: nat, more: seq<T> -> bool)
    requires from <= |all|
    ensures var seen := VisitedFrom(all, from, more);
            && seen <= all && (forall k :: from < k < |seen| ==> more(all[..k]))
            && (seen != all ==> |seen| > from && !more(seen))
    decreases |all| - from
  {
    if from < |all| && more(all[..from + 1]) { VisitFromIs(all, from + 1, more); }
  }

  /** Bids are listed from the highest price down and asks from the lowest up, each level once. */
  lemma ListingRuns(side: Side, m: map<int, int>, i: nat, j: nat)
    requires i < j < |m|
    ensures side.Bid? ==> InOrder(side, m)[i].price > InOrder(side, m)[j].price
    ensures side.Ask? ==> InOrder(side, m)[i].price < InOrder(side, m)[j].price
  {
    hide InOrder;
    InOrderLists(side, m);
  }

  /** So the first listed is the highest bid or the lowest ask. */
  lemma BestIsExtreme(side: Side, m: map<int, int>, p: int)
    requires p in m
    ensures InOrder(side, m)[0].price in m && InOrder(side, m)[0].qty == m[InOrder(side, m)[0].price]
    ensures side.Bid? ==> InOrder(side, m)[0].price >= p
    ensures side.Ask? ==> InOrder(side, m)[0].price <= p
  {
    hide InOrder;
    InOrderLists(side, m);
    var all := InOrder(side, m);
    assert all[0] in all && Level(p, m[p]) in all;
  }
}
