/** Lists of absolute level updates, the top N levels of a side, and what trimming restores. */
module Depth {
  import opened CoreTypes
  import opened BookOrder
  import opened PriceWindow

  // ----- lists of absolute updates -----

  function ApplyList(m: map<int, int>, msg: seq<Level>): map<int, int> {
    if msg == [] then m
    else
      var last := msg[|msg| - 1];
      ApplyLevel(ApplyList(m, msg[..|msg| - 1]), last.price, last.qty)
  }

  /** The last quantity `msg` gives for `p`. */
  function LastQty(msg: seq<Level>, p: int): Option<int> {
    if msg == [] then None
    else if msg[|msg| - 1].price == p then Some(msg[|msg| - 1].qty)
    else LastQty(msg[..|msg| - 1], p)
  }

  /** The quantity at `p`, zero when there is no level. */
  function QtyOf(m: map<int, int>, p: int): int { if p in m then m[p] else 0 }

  /** No level rests with quantity zero. */
  ghost predicate NoZeros(m: map<int, int>) { forall p :: p in m ==> m[p] != 0 }

  /** Updates are absolute: only the last one for each price matters. */
  lemma {:induction false} ApplyListAt(m: map<int, int>, msg: seq<Level>, p: int)
    requires NoZeros(m)
    ensures NoZeros(ApplyList(m, msg))
    ensures QtyOf(ApplyList(m, msg), p) ==
            match LastQty(msg, p) case None => QtyOf(m, p) case Some(q) => q
  {
    if msg != [] { ApplyListAt(m, msg[..|msg| - 1], p); }
  }

  lemma SameQuantities(a: map<int, int>, b: map<int, int>)
    requires NoZeros(a) && NoZeros(b) && forall p :: QtyOf(a, p) == QtyOf(b, p)
    ensures a == b
  {
    forall p: int ensures p in a <==> p in b {
      assert QtyOf(a, p) == QtyOf(b, p);
    }
    forall p | p in a ensures a[p] == b[p] {
      assert QtyOf(a, p) == QtyOf(b, p);
    }
  }

  // ----- the top N -----

  ghost predicate Priced(s: seq<Level>, p: int) { exists i :: 0 <= i < |s| && s[i].price == p }

  /** The first `n` levels in book order, or all of them. */
  ghost function FirstN(side: Side, m: map<int, int>, n: nat): seq<Level> {
    InOrder(side, m)[..Min(n, |m|)]
  }

  /** The `n` levels nearest the touch. */
  ghost function TopN(side: Side, m: map<int, int>, n: nat): map<int, int> {
    map p | p in m && Priced(FirstN(side, m, n), p) :: m[p]
  }

  /** `t` is a best-`n` selection of `m`: as many levels as there are up to `n`, none of the others better. */
  ghost predicate IsTop(side: Side, m: map<int, int>, n: nat, t: map<int, int>) {
    && t.Keys <= m.Keys && (forall p :: p in t ==> t[p] == m[p])
    && |t| == Min(n, |m|)
    && (forall p, q :: p in t && q in m && q !in t ==> Precedes(side, p, q))
  }

  /** The top N is the first N levels in book order. */
  lemma TopNIsPrefix(side: Side, m: map<int, int>, n: nat)
    ensures InOrder(side, TopN(side, m, n)) == FirstN(side, m, n)
    ensures |TopN(side, m, n)| == Min(n, |m|)
  {
    InOrderLists(side, m);
    PrefixLists(side, m, InOrder(side, m), Min(n, |m|), TopN(side, m, n));
    ListingIsUnique(side, TopN(side, m, n), FirstN(side, m, n));
  }

  lemma PrefixLists(side: Side, m: map<int, int>, all: seq<Level>, k: nat, t: map<int, int>)
    requires Lists(side, m, all) && k <= |all|
    requires forall p :: p in t <==> p in m && Priced(all[..k], p)
    requires forall p :: p in t ==> t[p] == m[p]
    ensures Lists(side, t, all[..k])
  {
    forall l ensures l in all[..k] <==> l.price in t && t[l.price] == l.qty {
      if l in all[..k] {
        assert l in all;
      }
      if l.price in t && t[l.price] == l.qty {
        var i :| 0 <= i < k && all[..k][i].price == l.price;
        assert all[i] in all;
      }
    }
  }

  lemma TopNIsTop(side: Side, m: map<int, int>, n: nat)
    ensures IsTop(side, m, n, TopN(side, m, n))
  {
    hide InOrder, Priced;
    InOrderLists(side, m);
    TopNIsPrefix(side, m, n);
    var all, t := InOrder(side, m), TopN(side, m, n);
    forall p, q | p in t && q in m && q !in t ensures Precedes(side, p, q) {
      PrefixPrecedes(side, m, all, Min(n, |m|), p, q);
    }
  }

  /** A level kept beats every level dropped: a higher bid, a lower ask. */
  lemma KeptBeatsDropped(side: Side, m: map<int, int>, n: nat, p: int, q: int)
    requires p in TopN(side, m, n) && q in m && q !in TopN(side, m, n)
    ensures side.Bid? ==> p > q
    ensures side.Ask? ==> p < q
  {
    hide TopN;
    TopNIsTop(side, m, n);
  }

  /** A level listed among the first `k` comes before any that is not. */
  lemma PrefixPrecedes(side: Side, m: map<int, int>, all: seq<Level>, k: nat, p: int, q: int)
    requires Lists(side, m, all) && k <= |all|
    requires Priced(all[..k], p) && q in m && !Priced(all[..k], q)
    ensures Precedes(side, p, q)
  {
    var i :| 0 <= i < k && all[..k][i].price == p;
    assert Level(q, m[q]) in all;
    var j :| 0 <= j < |all| && all[j] == Level(q, m[q]);
    assert forall x :: 0 <= x < k ==> all[..k][x] == all[x];
    assert k <= j && all[i].price == p;
  }

  lemma SubmapSize(a: map<int, int>, b: map<int, int>)
    requires a.Keys <= b.Keys
    ensures |a| <= |b|
    ensures |a| == |b| ==> a.Keys == b.Keys
  {
    SubsetSize(a.Keys, b.Keys);
  }

  lemma {:induction false} SubsetSize(a: set<int>, b: set<int>)
    requires a <= b
    ensures |a| <= |b|
    ensures |a| == |b| ==> a == b
  {
    assert b == a + (b - a);
    assert |b| == |a| + |b - a|;
  }

  /** A level of `t` outside `u` forces one of `u` outside `t`, and neither can come first. */
  lemma OneExtraIsNone(side: Side, m: map<int, int>, n: nat, t: map<int, int>, u: map<int, int>, x: int)
    requires IsTop(side, m, n, t) && IsTop(side, m, n, u) && x in t
    ensures x in u
  {
    assert forall y :: y in u && y !in t && x !in u ==> Precedes(side, x, y) && Precedes(side, y, x);
    if forall y :: y in u ==> y in t {
      SubmapSize(u, t);
    }
  }

  /** There is only one best-`n` selection. */
  lemma TopIsUnique(side: Side, m: map<int, int>, n: nat, t: map<int, int>, u: map<int, int>)
    requires IsTop(side, m, n, t) && IsTop(side, m, n, u)
    ensures t == u
  {
    forall x | x in t ensures x in u { OneExtraIsNone(side, m, n, t, u, x); }
    forall x | x in u ensures x in t { OneExtraIsNone(side, m, n, u, t, x); }
    assert forall p :: p in t ==> p in u && t[p] == u[p];
  }

  /** Removing levels outside the top N, while N remain, does not change the top N. */
  lemma TopNKeepsThrough(side: Side, m: map<int, int>, n: nat, gone: set<int>)
    requires gone !! TopN(side, m, n).Keys
    ensures TopN(side, m - gone, n) == TopN(side, m, n)
  {
    var t := TopN(side, m, n);
    TopNIsTop(side, m, n);
    TopNIsTop(side, m - gone, n);
    assert (m - gone).Keys == m.Keys - gone;
    SubmapSize(t, m - gone);
    SubmapSize(m - gone, m);
    TopIsUnique(side, m - gone, n, t, TopN(side, m - gone, n));
  }

  // ----- a depth-limited venue -----

  /** What a top-`n` venue may say when its book moves from `f` to `f'`: every mention is the truth
      about `f'`; new and changed levels of the new top are mentioned; levels gone from `f` are
      mentioned with quantity zero; a level merely pushed out of the top is not mentioned. */
  ghost predicate HonestDepthMessage(side: Side, f: map<int, int>, f': map<int, int>, n: nat, msg: seq<Level>) {
    && (forall p :: LastQty(msg, p).Some? ==> LastQty(msg, p).value == QtyOf(f', p))
    && (forall p :: LastQty(msg, p).Some? && p in f' ==> p in TopN(side, f', n))
    && (forall p :: p in TopN(side, f', n) && LastQty(msg, p).None? ==>
          p in TopN(side, f, n) && QtyOf(f, p) == QtyOf(f', p))
    && (forall p :: p in TopN(side, f, n) && p !in f' ==> LastQty(msg, p).Some?)
  }

  /** Trimming restores the venue's view: the old top N, the message, and a trim give the new top N. */
  lemma TrimRestoresView(side: Side, f: map<int, int>, f': map<int, int>, n: nat, msg: seq<Level>)
    requires NoZeros(f) && NoZeros(f') && HonestDepthMessage(side, f, f', n, msg)
    ensures TopN(side, ApplyList(TopN(side, f, n), msg), n) == TopN(side, f', n)
  {
    var old_, t, a := TopN(side, f, n), TopN(side, f', n), ApplyList(TopN(side, f, n), msg);
    TopNIsTop(side, f, n);
    TopNIsTop(side, f', n);
    forall p: int
      ensures p in t ==> p in a && a[p] == t[p]
      ensures p in a && p !in t ==> p in f'
    {
      ApplyListAt(old_, msg, p);
    }
    AppliedSize(f', n, t, a);
    assert IsTop(side, a, n, t);
    TopNIsTop(side, a, n);
    TopIsUnique(side, a, n, t, TopN(side, a, n));
  }

  /** A view deep enough for the whole side is the whole side. */
  lemma TopNIsAll(side: Side, m: map<int, int>, n: nat)
    requires n >= |m|
    ensures TopN(side, m, n) == m
  {
    TopNIsTop(side, m, n);
    SubmapSize(TopN(side, m, n), m);
  }

  /** Nothing is ever pushed out of such a view, and the message alone restores it. */
  lemma MessageRestoresAll(side: Side, f: map<int, int>, f': map<int, int>, n: nat, msg: seq<Level>)
    requires NoZeros(f) && NoZeros(f') && n >= |f| && n >= |f'| && HonestDepthMessage(side, f, f', n, msg)
    ensures ApplyList(f, msg) == f'
  {
    hide TopN;
    TopNIsAll(side, f, n);
    TopNIsAll(side, f', n);
    ApplyListAt(f, msg, 0);
    forall p: int ensures QtyOf(ApplyList(f, msg), p) == QtyOf(f', p) {
      ApplyListAt(f, msg, p);
    }
    SameQuantities(ApplyList(f, msg), f');
  }

  lemma AppliedSize(f': map<int, int>, n: nat, t: map<int, int>, a: map<int, int>)
    requires t.Keys <= f'.Keys && |t| == Min(n, |f'|) && t.Keys <= a.Keys
    requires forall p :: p in a && p !in t ==> p in f'
    ensures |t| == Min(n, |a|)
  {
    SubmapSize(t, a);
    if |t| < n {
      SubmapSize(t, f');
      assert forall p :: p in a ==> p in t;
      SubmapSize(a, t);
    }
  }
}
