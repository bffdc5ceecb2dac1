/** Many venues as one view: fee-adjusted ranking and choosing where to trade. */
module Consolidated {
  import opened CoreTypes
  import opened Checked
  import opened Execution

  datatype Spec = Spec(symbol: string, priceScale: nat, qtyScale: nat)

  /** One venue's touch, stamped with local receive time; zero means unstamped. */
  datatype Quote = Quote(
    venue: string, spec: Spec, bid: Quoted, ask: Quoted, hasBid: bool, hasAsk: bool,
    receivedAt: int64, taker: int64, synced: bool)

  datatype Quoted = Quoted(price: int64, qty: int64)

  /** A price as it comes out after fees, for a trade on `venue`. */
  datatype Effective = Effective(venue: string, quoted: int, effective: int, size: int)

  // ----- fees -----

  /** A price adjusted by the taker fee, rounded away from zero: buying pays it on top, selling nets
      it out.  None when it does not fit. */
  function ApplyTakerFee(price: int64, side: Side, taker: int64): Option<int> {
    match CheckedMulSigned(price, taker)
    case None => None
    case Some(product) =>
      var adjustment := DivAwayFromZero(product, ONE_HUNDRED_PERCENT);
      AdjustmentFits(product);
      if side.Ask? then CheckedAddSigned(price, adjustment) else CheckedAddSigned(price, -adjustment)
  }

  lemma AdjustmentFits(product: int)
    requires INT64_MIN < product <= INT64_MAX
    ensures INT64_MIN < DivAwayFromZero(product, ONE_HUNDRED_PERCENT) <= INT64_MAX
  {
  }

  /** What the taker pays over the quote: the exact fee with its magnitude rounded up, so within a tick
      of it.  It is never less than the exact fee if and only if that fee is not negative or is whole:
      a quote below zero, which no other check refuses, has its fee understated. */
  lemma FeeIsTight(price: int64, side: Side, taker: int64)
    requires ApplyTakerFee(price, side, taker).Some?
    ensures var fee := Signed(side, ApplyTakerFee(price, side, taker).value) - Signed(side, price);
            var exact := price * taker;
            && (exact >= 0 ==> (fee - 1) * ONE_HUNDRED_PERCENT < exact <= fee * ONE_HUNDRED_PERCENT)
            && (exact < 0 ==> fee * ONE_HUNDRED_PERCENT <= exact < (fee + 1) * ONE_HUNDRED_PERCENT)
            && (exact <= fee * ONE_HUNDRED_PERCENT <==> exact >= 0 || exact % ONE_HUNDRED_PERCENT == 0)
  {
    hide DivAwayFromZero;
    AdjustmentFits(price * taker);
    AwayIsTight(price * taker);
  }

  lemma AwayIsTight(num: int)
    ensures var q := DivAwayFromZero(num, ONE_HUNDRED_PERCENT);
            && (num >= 0 ==> (q - 1) * ONE_HUNDRED_PERCENT < num <= q * ONE_HUNDRED_PERCENT)
            && (num < 0 ==> q * ONE_HUNDRED_PERCENT <= num < (q + 1) * ONE_HUNDRED_PERCENT)
            && (num <= q * ONE_HUNDRED_PERCENT <==> num >= 0 || num % ONE_HUNDRED_PERCENT == 0)
  {
  }

  /** A quote at minus one tick with a half-percent fee is priced a whole tick too cheap. */
  lemma NegativeQuoteIsFlattered()
    ensures ApplyTakerFee(-1, Ask, 5_000) == Some(-2)
  {
    assert DivAwayFromZero(-5_000, ONE_HUNDRED_PERCENT) == -1;
  }

  /** The fee is in millionths of the price, on top for a buyer and off for a seller. */
  lemma QuarterPercent()
    ensures ApplyTakerFee(1_000_000, Ask, 2_500) == Some(1_002_500)
    ensures ApplyTakerFee(1_000_000, Bid, 2_500) == Some(997_500)
  {
    assert DivAwayFromZero(2_500_000_000, ONE_HUNDRED_PERCENT) == 2_500;
  }

  // ----- an order on names and prices -----

  /** Lexicographic, by character code. */
  predicate NameBefore(a: string, b: string) {
    if b == "" then false
    else if a == "" then true
    else if a[0] != b[0] then a[0] < b[0]
    else NameBefore(a[1..], b[1..])
  }

  lemma {:induction false} NamesAreOrdered(a: string, b: string)
    ensures a == b <==> !NameBefore(a, b) && !NameBefore(b, a)
    ensures !(NameBefore(a, b) && NameBefore(b, a))
  {
    if a != "" && b != "" && a[0] == b[0] {
      NamesAreOrdered(a[1..], b[1..]);
      assert a == [a[0]] + a[1..] && b == [b[0]] + b[1..];
    }
  }

  /** Where two names first differ, the smaller character decides; a prefix comes before what it begins. */
  lemma {:induction false} NamesDifferFirst(common: string, a: string, b: string)
    requires a == "" || b == "" || a[0] != b[0]
    ensures NameBefore(common + a, common + b) <==> b != "" && (a == "" || a[0] < b[0])
  {
    if common == "" {
      assert common + a == a && common + b == b;
    } else {
      assert (common + a)[1..] == common[1..] + a && (common + b)[1..] == common[1..] + b;
      NamesDifferFirst(common[1..], a, b);
    }
  }

  lemma {:induction false} NamesAreTransitive(a: string, b: string, c: string)
    requires NameBefore(a, b) && NameBefore(b, c)
    ensures NameBefore(a, c)
  {
    if a != "" && a[0] == b[0] == c[0] { NamesAreTransitive(a[1..], b[1..], c[1..]); }
  }

  /** Does `a` rank strictly behind `b`?  Better effective price first, then venue name. */
  predicate RanksAfter(a: Effective, b: Effective, side: Side) {
    if a.effective != b.effective then Signed(side, a.effective) > Signed(side, b.effective)
    else NameBefore(b.venue, a.venue)
  }

  lemma RanksAreOrdered(a: Effective, b: Effective, side: Side)
    ensures a.venue != b.venue ==> RanksAfter(a, b, side) != RanksAfter(b, a, side)
    ensures !(RanksAfter(a, b, side) && RanksAfter(b, a, side))
  {
    NamesAreOrdered(a.venue, b.venue);
  }

  lemma RanksAreTransitive(a: Effective, b: Effective, c: Effective, side: Side)
    requires RanksAfter(a, b, side) && RanksAfter(b, c, side)
    ensures RanksAfter(a, c, side)
  {
    if a.effective == b.effective == c.effective { NamesAreTransitive(c.venue, b.venue, a.venue); }
  }

  // ----- insertion sort -----

  predicate Sorted(s: seq<Effective>, side: Side) {
    forall i, j :: 0 <= i < j < |s| ==> RanksAfter(s[j], s[i], side)
  }

  predicate DistinctVenues(s: seq<Effective>) {
    forall i, j :: 0 <= i < j < |s| ==> s[i].venue != s[j].venue
  }

  /** `key` put into its place from the back. */
  function Insert(s: seq<Effective>, key: Effective, side: Side): (r: seq<Effective>)
    ensures |r| == |s| + 1
  {
    if s == [] || !RanksAfter(s[|s| - 1], key, side) then s + [key]
    else Insert(s[..|s| - 1], key, side) + [s[|s| - 1]]
  }

  function Sort(s: seq<Effective>, side: Side): (r: seq<Effective>)
    ensures |r| == |s|
  {
    if s == [] then [] else Insert(Sort(s[..|s| - 1], side), s[|s| - 1], side)
  }

  lemma {:induction false} InsertKeeps(s: seq<Effective>, key: Effective, side: Side)
    ensures multiset(Insert(s, key, side)) == multiset(s) + multiset{key}
  {
    if s != [] && RanksAfter(s[|s| - 1], key, side) {
      InsertKeeps(s[..|s| - 1], key, side);
      assert s == s[..|s| - 1] + [s[|s| - 1]];
    }
  }

  /** Everything in `s` ranks before `x`. */
  predicate AllBefore(s: seq<Effective>, x: Effective, side: Side) {
    forall i :: 0 <= i < |s| ==> RanksAfter(x, s[i], side)
  }

  lemma {:induction false} InsertBefore(s: seq<Effective>, key: Effective, x: Effective, side: Side)
    requires AllBefore(s, x, side) && RanksAfter(x, key, side)
    ensures AllBefore(Insert(s, key, side), x, side)
  {
    hide RanksAfter;
    if s != [] && RanksAfter(s[|s| - 1], key, side) { InsertBefore(s[..|s| - 1], key, x, side); }
  }

  lemma SortedAppend(s: seq<Effective>, x: Effective, side: Side)
    ensures Sorted(s + [x], side) <==> Sorted(s, side) && AllBefore(s, x, side)
  {
    hide RanksAfter;
    var t := s + [x];
    forall i | 0 <= i < |s| ensures t[i] == s[i] {}
    if Sorted(t, side) {
      forall i | 0 <= i < |s| ensures RanksAfter(x, s[i], side) { assert RanksAfter(t[|s|], t[i], side); }
      forall i, j | 0 <= i < j < |s| ensures RanksAfter(s[j], s[i], side) { assert RanksAfter(t[j], t[i], side); }
    }
  }

  lemma {:induction false} InsertSorts(s: seq<Effective>, key: Effective, side: Side)
    requires Sorted(s, side) && forall i :: 0 <= i < |s| ==> s[i].venue != key.venue
    ensures Sorted(Insert(s, key, side), side)
  {
    hide RanksAfter, Sorted;
    if s == [] {
      NothingSorted(side);
      SortedAppend([], key, side);
    } else {
      var front, last := s[..|s| - 1], s[|s| - 1];
      assert s == front + [last];
      SortedAppend(front, last, side);
      if RanksAfter(last, key, side) {
        InsertSorts(front, key, side);
        InsertBefore(front, key, last, side);
        SortedAppend(Insert(front, key, side), last, side);
      } else {
        AllBeforeNext(front, last, key, side);
        SortedAppend(s, key, side);
      }
    }
  }

  lemma AllBeforeNext(front: seq<Effective>, last: Effective, key: Effective, side: Side)
    requires AllBefore(front, last, side) && !RanksAfter(last, key, side) && last.venue != key.venue
    ensures AllBefore(front + [last], key, side)
  {
    hide RanksAfter;
    RanksAreOrdered(last, key, side);
    forall i | 0 <= i < |front| ensures RanksAfter(key, front[i], side) {
      RanksAreTransitive(key, last, front[i], side);
    }
  }

  /** Sorting keeps exactly what was there, and orders it strictly. */
  lemma {:induction false} SortSorts(s: seq<Effective>, side: Side)
    requires DistinctVenues(s)
    ensures Sorted(Sort(s, side), side) && multiset(Sort(s, side)) == multiset(s)
  {
    hide RanksAfter, Insert, Sorted;
    if s == [] {
      NothingSorted(side);
    } else {
      var n := |s| - 1;
      var rest := Sort(s[..n], side);
      SortSorts(s[..n], side);
      forall i | 0 <= i < n ensures rest[i].venue != s[n].venue {
        assert rest[i] in multiset(rest);
        assert rest[i] in s[..n];
      }
      InsertSorts(rest, s[n], side);
      InsertKeeps(rest, s[n], side);
      assert s == s[..n] + [s[n]];
    }
  }

  lemma NothingSorted(side: Side)
    ensures Sorted([], side)
  {
  }

  /** Shift larger entries right until `key`, taken from slot `i`, fits. */
  method InsertAt(a: array<Effective>, i: nat, side: Side)
    requires i < a.Length
    modifies a
    ensures a[..i + 1] == Insert(old(a[..i]), old(a[i]), side)
    ensures a[i + 1..] == old(a[i + 1..])
  {
    hide RanksAfter, Insert;
    var key := a[i];
    ghost var front, tail := a[..i], a[i + 1..];
    var j := i;
    ghost var moved: seq<Effective> := [];
    assert front[..i] == front;
    while j > 0 && RanksAfter(a[j - 1], key, side)
      invariant 0 <= j <= i && |moved| == i - j
      invariant a[..j] == front[..j] && a[j + 1..i + 1] == moved && a[i + 1..] == tail
      invariant Insert(front, key, side) == Insert(front[..j], key, side) + moved
    {
      assert front[..j][..j - 1] == front[..j - 1];
      InsertStep(front[..j], key, side, moved);
      moved := [a[j - 1]] + moved;
      a[j] := a[j - 1];
      j := j - 1;
    }
    InsertHere(front[..j], key, side);
    a[j] := key;
    assert a[..i + 1] == a[..j] + [a[j]] + a[j + 1..i + 1];
  }

  lemma InsertStep(s: seq<Effective>, key: Effective, side: Side, moved: seq<Effective>)
    requires s != [] && RanksAfter(s[|s| - 1], key, side)
    ensures Insert(s, key, side) + moved == Insert(s[..|s| - 1], key, side) + ([s[|s| - 1]] + moved)
  {
    hide RanksAfter;
  }

  lemma InsertHere(s: seq<Effective>, key: Effective, side: Side)
    requires s == [] || !RanksAfter(s[|s| - 1], key, side)
    ensures Insert(s, key, side) == s + [key]
  {
  }

  method InsertionSort(a: array<Effective>, side: Side)
    modifies a
    ensures a[..] == Sort(old(a[..]), side)
  {
    hide Insert, Sort;
    ghost var was := a[..];
    SortNone(was[..0], side);
    for i := 0 to a.Length
      invariant a[..i] == Sort(was[..i], side) && a[i..] == was[i..]
    {
      SortOneMore(was, i, side);
      assert a[i] == a[i..][0] && a[i + 1..] == a[i..][1..];
      InsertAt(a, i, side);
    }
    assert was[..a.Length] == was && a[..a.Length] == a[..];
  }

  lemma SortNone(s: seq<Effective>, side: Side)
    requires s == []
    ensures Sort(s, side) == []
  {
  }

  lemma SortOneMore(s: seq<Effective>, i: nat, side: Side)
    requires i < |s|
    ensures Sort(s[..i + 1], side) == Insert(Sort(s[..i], side), s[i], side)
  {
    hide Insert;
    assert s[..i + 1][..i] == s[..i];
  }

  // ----- the consolidated view, as a map from venue to quote -----

  datatype Policy = Policy(spec: Spec, maxAge: int64, enforce: bool)

  predicate Acceptable(q: Quote, spec: Spec) { q.spec == spec && q.taker >= 0 }

  /** A quote is refused for another instrument or a negative fee, and for nothing else. */
  lemma RefusedIff(q: Quote, spec: Spec)
    ensures !Acceptable(q, spec) <==> q.spec != spec || q.taker < 0
  {
  }

  /** Fails closed: unstamped, from the future, or under an age limit that nothing meets. */
  predicate IsFresh(p: Policy, stampedAt: int, now: int) {
    p.enforce ==> 0 < stampedAt <= now && 0 < p.maxAge && now - stampedAt <= p.maxAge
  }

  predicate Usable(p: Policy, q: Quote, side: Side, now: int) {
    q.synced && q.spec == p.spec && (if side.Bid? then q.hasBid else q.hasAsk) && IsFresh(p, q.receivedAt, now)
  }

  /** The quote's rank entry, when it is usable and its price survives the fee. */
  function Entry(p: Policy, q: Quote, side: Side, now: int): Option<Effective> {
    var touch := if side.Bid? then q.bid else q.ask;
    var e := ApplyTakerFee(touch.price, side, q.taker);
    if Usable(p, q, side, now) && e.Some? then Some(Effective(q.venue, touch.price, e.value, touch.qty)) else None
  }

  /** A ranking runs from the lowest ask up or from the highest bid down, equal prices by name. */
  lemma RankedByPrice(p: Policy, m: map<string, Quote>, side: Side, now: int, out: seq<Effective>, i: nat, j: nat)
    requires IsRanking(p, m, side, now, out) && i < j < |out|
    ensures side.Ask? ==> out[i].effective <= out[j].effective
    ensures side.Bid? ==> out[i].effective >= out[j].effective
    ensures out[i].effective == out[j].effective ==> NameBefore(out[i].venue, out[j].venue)
  {
  }

  /** The leader has the lowest ask or the highest bid of all entries, the first name among equals. */
  lemma LeaderHasBestPrice(p: Policy, m: map<string, Quote>, side: Side, now: int, best: Effective, e: Effective)
    requires IsLeader(p, m, side, now, Some(best)) && IsEntry(p, m, side, now, e)
    ensures side.Ask? ==> best.effective <= e.effective
    ensures side.Bid? ==> best.effective >= e.effective
    ensures best.effective == e.effective && e != best ==> NameBefore(best.venue, e.venue)
  {
    hide IsEntry;
  }

  /** Which quotes are ranked, and as what: the taken side's touch of a venue in sync, on this
      instrument, and - where age is enforced - stamped no later than now and no longer ago than the
      limit; with the fee on top of an ask and off a bid. */
  lemma EntryIff(p: Policy, q: Quote, side: Side, now: int)
    ensures var touch := match side case Bid => q.bid case Ask => q.ask;
            var there := match side case Bid => q.hasBid case Ask => q.hasAsk;
            var late := p.enforce && (q.receivedAt <= 0 || q.receivedAt > now || p.maxAge <= 0
                                      || q.receivedAt < now - p.maxAge);
            var e := Entry(p, q, side, now);
            && (e.Some? <==> q.synced && q.spec == p.spec && there && !late
                             && ApplyTakerFee(touch.price, side, q.taker).Some?)
            && (e.Some? ==> e.value.venue == q.venue && e.value.quoted == touch.price && e.value.size == touch.qty)
            && (e.Some? && touch.price >= 0 && q.taker >= 0 && side.Ask? ==> e.value.effective >= touch.price)
            && (e.Some? && touch.price >= 0 && q.taker >= 0 && side.Bid? ==> e.value.effective <= touch.price)
  {
    hide ApplyTakerFee;
    var touch := if side.Bid? then q.bid else q.ask;
    if ApplyTakerFee(touch.price, side, q.taker).Some? { FeeIsTight(touch.price, side, q.taker); }
    if touch.price >= 0 && q.taker >= 0 { ProductOfNats(touch.price, q.taker); }
  }

  predicate DistinctQuotes(qs: seq<Quote>) {
    forall i, j :: 0 <= i < j < |qs| ==> qs[i].venue != qs[j].venue
  }

  function ByVenue(qs: seq<Quote>): map<string, Quote> {
    if qs == [] then map[] else ByVenue(qs[..|qs| - 1])[qs[|qs| - 1].venue := qs[|qs| - 1]]
  }

  lemma {:induction false} ByVenueIs(qs: seq<Quote>)
    requires DistinctQuotes(qs)
    ensures forall i :: 0 <= i < |qs| ==> qs[i].venue in ByVenue(qs) && ByVenue(qs)[qs[i].venue] == qs[i]
    ensures forall v :: v in ByVenue(qs) ==> ByVenue(qs)[v] in qs && ByVenue(qs)[v].venue == v
  {
    if qs != [] { ByVenueIs(qs[..|qs| - 1]); }
  }

  ghost predicate IsEntry(p: Policy, m: map<string, Quote>, side: Side, now: int, e: Effective) {
    exists v :: v in m && Entry(p, m[v], side, now) == Some(e)
  }

  /** Exactly the usable venues' prices, best first. */
  ghost predicate IsRanking(p: Policy, m: map<string, Quote>, side: Side, now: int, out: seq<Effective>) {
    Sorted(out, side) && forall e :: e in out <==> IsEntry(p, m, side, now, e)
  }

  /** One set of quotes has one ranking, however the quotes arrived. */
  lemma {:induction false} RankingIsUnique(side: Side, a: seq<Effective>, b: seq<Effective>)
    requires Sorted(a, side) && Sorted(b, side) && forall e :: e in a <==> e in b
    ensures a == b
  {
    HoldsSomething(a);
    HoldsSomething(b);
    if a != [] {
      assert a[0] in b && b[0] in a;
      SameFirst(side, a, b);
      forall e ensures e in a[1..] <==> e in b[1..] {
        TailHolds(side, a, e);
        TailHolds(side, b, e);
      }
      RankingIsUnique(side, a[1..], b[1..]);
    }
  }

  lemma HoldsSomething(s: seq<Effective>)
    ensures s != [] <==> exists e :: e in s
  {
    if s != [] { assert s[0] in s; }
  }

  lemma SameFirst(side: Side, a: seq<Effective>, b: seq<Effective>)
    requires a != [] && b != [] && Sorted(a, side) && Sorted(b, side) && a[0] in b && b[0] in a
    ensures a[0] == b[0]
  {
    hide RanksAfter;
    RanksAreOrdered(a[0], b[0], side);
  }

  lemma TailHolds(side: Side, s: seq<Effective>, e: Effective)
    requires s != [] && Sorted(s, side)
    ensures e in s[1..] <==> e in s && e != s[0]
  {
    hide RanksAfter;
    RanksAreOrdered(s[0], s[0], side);
    if e in s && e != s[0] {
      var i :| 0 <= i < |s| && s[i] == e;
      assert s[1..][i - 1] == e;
    }
    if e in s[1..] {
      var i :| 0 <= i < |s[1..]| && s[1..][i] == e;
      assert RanksAfter(s[i + 1], s[0], side);
    }
  }

  /** The best of the entries: no entry ranks before it. */
  ghost predicate IsLeader(p: Policy, m: map<string, Quote>, side: Side, now: int, best: Option<Effective>) {
    match best
    case None => forall e :: !IsEntry(p, m, side, now, e)
    case Some(b) =>
      IsEntry(p, m, side, now, b) && forall e :: IsEntry(p, m, side, now, e) && e != b ==> RanksAfter(e, b, side)
  }

  /** The linear scan's answer is the sorted list's first element. */
  lemma BestIsFirstRanked(p: Policy, m: map<string, Quote>, side: Side, now: int, best: Option<Effective>,
      out: seq<Effective>)
    requires IsLeader(p, m, side, now, best) && IsRanking(p, m, side, now, out)
    ensures best == if out == [] then None else Some(out[0])
  {
    hide RanksAfter, IsEntry;
    HoldsSomething(out);
    if best.Some? {
      assert best.value in out;
      assert out[0] in out;
      RanksAreOrdered(out[0], best.value, side);
    }
  }

  class ConsolidatedBook {
    const policy: Policy
    var quotes: seq<Quote>
    var rejected: nat

    ghost predicate Valid()
      reads this
    {
      DistinctQuotes(quotes) && forall i :: 0 <= i < |quotes| ==> Acceptable(quotes[i], policy.spec)
    }

    ghost function View(): map<string, Quote>
      reads this
    {
      ByVenue(quotes)
    }

    constructor (policy: Policy)
      ensures Valid() && View() == map[] && rejected == 0 && this.policy == policy
    {
      this.policy := policy;
      quotes := [];
      rejected := 0;
    }

    /** Insert or replace a venue's quote; one that is not for this instrument, or has a negative
        fee, is refused and counted. */
    method Update(quote: Quote) returns (ok: bool)
      requires Valid()
      modifies this
      ensures Valid() && ok == Acceptable(quote, policy.spec)
      ensures View() == if ok then old(View())[quote.venue := quote] else old(View())
      ensures rejected == old(rejected) + (if ok then 0 else 1)
    {
      if quote.spec != policy.spec || quote.taker < 0 {
        rejected := rejected + 1;
        return false;
      }
      ByVenueIs(quotes);
      ghost var start := quotes;
      for i := 0 to |quotes|
        invariant quotes == start && rejected == old(rejected) && Valid()
        invariant forall j :: 0 <= j < i ==> quotes[j].venue != quote.venue
      {
        if quotes[i].venue == quote.venue {
          ReplaceOne(quotes, i, quote);
          quotes := quotes[i := quote];
          return true;
        }
      }
      AddOne(quotes, quote);
      quotes := quotes + [quote];
      ok := true;
    }

    /** Drop a venue. */
    method Remove(venue: string)
      requires Valid()
      modifies this`quotes
      ensures Valid() && View() == old(View()) - {venue}
    {
      ghost var start := quotes;
      for i := 0 to |quotes|
        invariant quotes == start && Valid()
        invariant forall j :: 0 <= j < i ==> quotes[j].venue != venue
      {
        if quotes[i].venue == venue {
          DropOne(quotes, i);
          quotes := quotes[..i] + quotes[i + 1..];
          return;
        }
      }
      ByVenueIs(quotes);
      assert venue !in ByVenue(quotes);
    }

    /** Every usable venue's fee-adjusted price, best first. */
    method Ranked(side: Side, now: int64) returns (out: seq<Effective>)
      requires Valid()
      ensures IsRanking(policy, View(), side, now, out)
    {
      hide Entry, Sort, RanksAfter, Acceptable;
      var entries: seq<Effective> := [];
      for i := 0 to |quotes|
        invariant Collected(policy, quotes[..i], side, now, entries)
      {
        CollectNext(policy, quotes, i, side, now, entries);
        var e := Entry(policy, quotes[i], side, now);
        if e.Some? {
          entries := entries + [e.value];
        }
      }
      assert quotes[..|quotes|] == quotes;
      var a := new Effective[|entries|](i requires 0 <= i < |entries| => entries[i]);
      assert a[..] == entries;
      InsertionSort(a, side);
      out := a[..];
      SortSorts(entries, side);
      RankingOf(policy, quotes, side, now, entries, out);
    }

    /** The best effective price, by a scan that keeps a running leader. */
    method Best(side: Side, now: int64) returns (best: Option<Effective>)
      requires Valid()
      ensures IsLeader(policy, View(), side, now, best)
    {
      hide Entry, RanksAfter, Acceptable;
      best := None;
      for i := 0 to |quotes|
        invariant LeadsSoFar(policy, quotes[..i], side, now, best)
      {
        var e := Entry(policy, quotes[i], side, now);
        LeadNext(policy, quotes, i, side, now, best);
        if e.Some? && (best.None? || RanksAfter(best.value, e.value, side)) {
          best := e;
        }
      }
      assert quotes[..|quotes|] == quotes;
      LeaderOf(policy, quotes, side, now, best);
    }
  }

  lemma AddOne(qs: seq<Quote>, q: Quote)
    requires DistinctQuotes(qs) && forall j :: 0 <= j < |qs| ==> qs[j].venue != q.venue
    ensures DistinctQuotes(qs + [q]) && ByVenue(qs + [q]) == ByVenue(qs)[q.venue := q]
  {
    assert (qs + [q])[..|qs|] == qs;
  }

  lemma {:induction false} ReplaceOne(qs: seq<Quote>, i: nat, q: Quote)
    requires DistinctQuotes(qs) && i < |qs| && qs[i].venue == q.venue
    ensures DistinctQuotes(qs[i := q]) && ByVenue(qs[i := q]) == ByVenue(qs)[q.venue := q]
  {
    var n := |qs| - 1;
    if i < n {
      assert qs[i := q][..n] == qs[..n][i := q];
      ReplaceOne(qs[..n], i, q);
    } else {
      assert qs[i := q][..n] == qs[..n];
    }
  }

  lemma {:induction false} DropOne(qs: seq<Quote>, i: nat)
    requires DistinctQuotes(qs) && i < |qs|
    ensures DistinctQuotes(qs[..i] + qs[i + 1..])
    ensures ByVenue(qs[..i] + qs[i + 1..]) == ByVenue(qs) - {qs[i].venue}
  {
    hide ByVenue;
    var n := |qs| - 1;
    var front, last := qs[..n], qs[n];
    assert qs == front + [last];
    AddOne(front, last);
    if i < n {
      DropOne(front, i);
      var dropped := front[..i] + front[i + 1..];
      assert qs[..i] + qs[i + 1..] == dropped + [last];
      AddOne(dropped, last);
    } else {
      assert qs[..i] + qs[i + 1..] == front;
      NotByVenue(front, last.venue);
    }
  }

  lemma NotByVenue(qs: seq<Quote>, v: string)
    requires DistinctQuotes(qs) && forall i :: 0 <= i < |qs| ==> qs[i].venue != v
    ensures v !in ByVenue(qs)
  {
    ByVenueIs(qs);
  }

  /** The entries of some quotes, in the quotes' order. */
  ghost predicate Collected(p: Policy, qs: seq<Quote>, side: Side, now: int, entries: seq<Effective>) {
    && DistinctVenues(entries)
    && (forall e :: e in entries ==> exists i :: 0 <= i < |qs| && Entry(p, qs[i], side, now) == Some(e))
    && (forall i :: 0 <= i < |qs| && Entry(p, qs[i], side, now).Some? ==> Entry(p, qs[i], side, now).value in entries)
  }

  lemma EntryVenue(p: Policy, q: Quote, side: Side, now: int)
    ensures Entry(p, q, side, now).Some? ==> Entry(p, q, side, now).value.venue == q.venue
  {
  }

  lemma CollectNext(p: Policy, qs: seq<Quote>, i: nat, side: Side, now: int, entries: seq<Effective>)
    requires i < |qs| && DistinctQuotes(qs) && Collected(p, qs[..i], side, now, entries)
    ensures var e := Entry(p, qs[i], side, now);
            Collected(p, qs[..i + 1], side, now, if e.Some? then entries + [e.value] else entries)
  {
    hide Entry;
    var e := Entry(p, qs[i], side, now);
    var more := if e.Some? then entries + [e.value] else entries;
    forall k | 0 <= k < |entries| ensures e.Some? ==> entries[k].venue != e.value.venue {
      assert entries[k] in entries;
      var j :| 0 <= j < |qs[..i]| && Entry(p, qs[..i][j], side, now) == Some(entries[k]);
      EntryVenue(p, qs[j], side, now);
      EntryVenue(p, qs[i], side, now);
    }
    var front, longer := qs[..i], qs[..i + 1];
    forall x | x in more ensures exists j :: 0 <= j < |longer| && Entry(p, longer[j], side, now) == Some(x) {
      if x in entries {
        var j :| 0 <= j < |front| && Entry(p, front[j], side, now) == Some(x);
        assert longer[j] == front[j];
      } else {
        assert longer[i] == qs[i];
      }
    }
    forall j | 0 <= j < |longer| && Entry(p, longer[j], side, now).Some?
      ensures Entry(p, longer[j], side, now).value in more
    {
      if j < i { assert longer[j] == front[j]; }
    }
  }

  lemma RankingOf(p: Policy, qs: seq<Quote>, side: Side, now: int, entries: seq<Effective>, out: seq<Effective>)
    requires DistinctQuotes(qs) && Collected(p, qs, side, now, entries)
    requires Sorted(out, side) && multiset(out) == multiset(entries)
    ensures IsRanking(p, ByVenue(qs), side, now, out)
  {
    hide Entry, RanksAfter;
    ByVenueIs(qs);
    forall e ensures e in out <==> IsEntry(p, ByVenue(qs), side, now, e) {
      assert e in out <==> e in multiset(out);
      assert e in entries <==> e in multiset(entries);
      EntriesOf(p, qs, side, now, e);
      if e in entries {
        var i :| 0 <= i < |qs| && Entry(p, qs[i], side, now) == Some(e);
      }
    }
  }

  /** The entries of a map's quotes are those of the list. */
  lemma EntriesOf(p: Policy, qs: seq<Quote>, side: Side, now: int, e: Effective)
    requires DistinctQuotes(qs)
    ensures IsEntry(p, ByVenue(qs), side, now, e) <==>
              exists i :: 0 <= i < |qs| && Entry(p, qs[i], side, now) == Some(e)
  {
    hide Entry;
    ByVenueIs(qs);
    var m := ByVenue(qs);
    if IsEntry(p, m, side, now, e) {
      var v :| v in m && Entry(p, m[v], side, now) == Some(e);
      var i :| 0 <= i < |qs| && qs[i] == m[v];
    }
    if exists i :: 0 <= i < |qs| && Entry(p, qs[i], side, now) == Some(e) {
      var i :| 0 <= i < |qs| && Entry(p, qs[i], side, now) == Some(e);
      assert m[qs[i].venue] == qs[i];
    }
  }

  /** The leader among the quotes seen so far. */
  ghost predicate LeadsSoFar(p: Policy, qs: seq<Quote>, side: Side, now: int, best: Option<Effective>) {
    && (best.Some? ==> exists i :: 0 <= i < |qs| && Entry(p, qs[i], side, now) == best)
    && (forall i :: 0 <= i < |qs| ==> Beaten(best, Entry(p, qs[i], side, now), side))
  }

  predicate Beaten(best: Option<Effective>, e: Option<Effective>, side: Side) {
    e.Some? ==> best.Some? && (e == best || RanksAfter(e.value, best.value, side))
  }

  lemma LeadNext(p: Policy, qs: seq<Quote>, i: nat, side: Side, now: int, best: Option<Effective>)
    requires i < |qs| && DistinctQuotes(qs) && LeadsSoFar(p, qs[..i], side, now, best)
    ensures var e := Entry(p, qs[i], side, now);
            var next := if e.Some? && (best.None? || RanksAfter(best.value, e.value, side)) then e else best;
            LeadsSoFar(p, qs[..i + 1], side, now, next)
  {
    hide Entry, RanksAfter;
    var e := Entry(p, qs[i], side, now);
    var next := if e.Some? && (best.None? || RanksAfter(best.value, e.value, side)) then e else best;
    if best.Some? {
      var k :| 0 <= k < |qs[..i]| && Entry(p, qs[..i][k], side, now) == best;
      EntryVenue(p, qs[k], side, now);
      EntryVenue(p, qs[i], side, now);
      if e.Some? { RanksAreOrdered(best.value, e.value, side); }
      assert qs[..i + 1][k] == qs[..i][k];
    }
    var front, longer := qs[..i], qs[..i + 1];
    assert longer[i] == qs[i];
    forall j | 0 <= j < |longer| ensures Beaten(next, Entry(p, longer[j], side, now), side) {
      if j < i {
        assert longer[j] == front[j];
        var x := Entry(p, qs[j], side, now);
        assert Beaten(best, x, side);
        if x.Some? && next != best && x != best { RanksAreTransitive(x.value, best.value, e.value, side); }
      }
    }
  }

  lemma LeaderOf(p: Policy, qs: seq<Quote>, side: Side, now: int, best: Option<Effective>)
    requires DistinctQuotes(qs) && LeadsSoFar(p, qs, side, now, best)
    ensures IsLeader(p, ByVenue(qs), side, now, best)
  {
    hide Entry, RanksAfter, IsEntry;
    forall e
      ensures IsEntry(p, ByVenue(qs), side, now, e) ==>
                best.Some? && (e == best.value || RanksAfter(e, best.value, side))
    {
      EntriesOf(p, qs, side, now, e);
      if IsEntry(p, ByVenue(qs), side, now, e) {
        var i :| 0 <= i < |qs| && Entry(p, qs[i], side, now) == Some(e);
        assert Beaten(best, Entry(p, qs[i], side, now), side);
      }
    }
    if best.Some? { EntriesOf(p, qs, side, now, best.value); }
  }

  // ----- where to trade -----

  /** A venue's book as the router sees it. */
  datatype VenueBook = VenueBook(spec: Spec, lastUpdate: int64, bids: seq<Level>, asks: seq<Level>)

  function Levels(b: VenueBook, side: Side): seq<Level> { if side.Bid? then b.bids else b.asks }

  ghost predicate BookOk(b: VenueBook) { Walkable(Bid, b.bids) && Walkable(Ask, b.asks) }

  type Books = books: map<string, VenueBook> | forall v :: v in books ==> BookOk(books[v]) ghost witness map[]

  /** What trading on one venue would come to. */
  datatype Offer = Offer(venue: string, fill: Fill, effective: int)

  datatype Outcome = NotAsked | Dropped(considered: bool) | Offered(offer: Offer)

  /** What becomes of one quote: not usable or without a book, dropped, or an offer.  A missing book
      is not counted as dropped. */
  function Consider(p: Policy, q: Quote, side: Side, wanted: int64, now: int, books: Books): Outcome {
    if !Usable(p, q, side, now) || q.venue !in books then NotAsked
    else
      var b := books[q.venue];
      if b.spec != p.spec || !IsFresh(p, b.lastUpdate, now) then Dropped(false)
      else
        assert BookOk(b);
        Offering(q, side, Trade(Levels(b, side), side, wanted))
  }

  function Offering(q: Quote, side: Side, fill: Fill): Outcome {
    if !fill.status.Ok? || !(INT64_MIN <= fill.vwap <= INT64_MAX) then Dropped(true)
    else
      match ApplyTakerFee(fill.vwap, side, q.taker)
      case None => Dropped(true)
      case Some(e) => Offered(Offer(q.venue, fill, e))
  }

  /** A full fill beats a partial one; then the effective price; then the venue name. */
  predicate Better(a: Offer, b: Offer, side: Side) {
    if a.fill.exhausted != b.fill.exhausted then b.fill.exhausted
    else if a.effective != b.effective then Signed(side, a.effective) < Signed(side, b.effective)
    else NameBefore(a.venue, b.venue)
  }

  lemma BetterIsOrdered(a: Offer, b: Offer, side: Side)
    ensures a.venue != b.venue ==> Better(a, b, side) != Better(b, a, side)
    ensures !(Better(a, b, side) && Better(b, a, side))
  {
    NamesAreOrdered(a.venue, b.venue);
  }

  lemma BetterIsTransitive(a: Offer, b: Offer, c: Offer, side: Side)
    requires Better(a, b, side) && Better(b, c, side)
    ensures Better(a, c, side)
  {
    if a.fill.exhausted == c.fill.exhausted && a.effective == b.effective == c.effective {
      NamesAreTransitive(a.venue, b.venue, c.venue);
    }
  }

  datatype BestExecution = BestExecution(best: Option<Offer>, considered: nat, rejected: nat)

  /** The venues whose quotes meet a test. */
  ghost function VenuesWhere(m: map<string, Quote>, test: Quote -> bool): set<string> {
    set v | v in m && test(m[v])
  }

  ghost function Asked(p: Policy, side: Side, wanted: int64, now: int, books: Books): Quote -> bool {
    q => var o := Consider(p, q, side, wanted, now, books); o.Offered? || (o.Dropped? && o.considered)
  }

  ghost function Refused(p: Policy, side: Side, wanted: int64, now: int, books: Books): Quote -> bool {
    q => Consider(p, q, side, wanted, now, books).Dropped?
  }

  ghost predicate IsOffer(p: Policy, m: map<string, Quote>, side: Side, wanted: int64, now: int, books: Books,
      o: Offer) {
    exists v :: v in m && Consider(p, m[v], side, wanted, now, books) == Offered(o)
  }

  predicate Beats(best: Option<Offer>, o: Offer, side: Side) {
    best.Some? && (o == best.value || Better(best.value, o, side))
  }

  ghost predicate IsBestOffer(p: Policy, m: map<string, Quote>, side: Side, wanted: int64, now: int, books: Books,
      best: Option<Offer>) {
    && (forall o :: IsOffer(p, m, side, wanted, now, books, o) ==> Beats(best, o, side))
    && (best.Some? ==> IsOffer(p, m, side, wanted, now, books, best.value))
  }

  /** The answer in terms of the quotes alone: the best offer of all, and how many venues were
      asked and how many dropped. */
  ghost predicate IsBestExecution(p: Policy, m: map<string, Quote>, side: Side, wanted: int64, now: int, books: Books,
      r: BestExecution) {
    && IsBestOffer(p, m, side, wanted, now, books, r.best)
    && r.considered == |VenuesWhere(m, Asked(p, side, wanted, now, books))|
    && r.rejected == |VenuesWhere(m, Refused(p, side, wanted, now, books))|
  }

  /** The same quotes, however they arrived, give the same venue, fill, price and counts. */
  lemma BestExecutionIsUnique(p: Policy, m: map<string, Quote>, side: Side, wanted: int64, now: int, books: Books,
                              a: BestExecution, b: BestExecution)
    requires IsBestExecution(p, m, side, wanted, now, books, a) && IsBestExecution(p, m, side, wanted, now, books, b)
    ensures a == b
  {
    hide Better, IsOffer, VenuesWhere;
    if a.best.Some? && b.best.Some? { BetterIsOrdered(a.best.value, b.best.value, side); }
  }

  /** One pass over the quotes, holding the best offer so far and the two counts. */
  method ChooseVenue(view: ConsolidatedBook, side: Side, wanted: int64, now: int64, books: Books)
      returns (r: BestExecution)
    requires view.Valid()
    ensures IsBestExecution(view.policy, view.View(), side, wanted, now, books, r)
  {
    hide Consider, Better, Acceptable;
    var p, quotes := view.policy, view.quotes;
    r := BestExecution(None, 0, 0);
    NobodyYet(p, side, wanted, now, books);
    assert quotes[..0] == [];
    for i := 0 to |quotes|
      invariant IsBestExecution(p, ByVenue(quotes[..i]), side, wanted, now, books, r)
    {
      ghost var before := r;
      var o := Consider(p, quotes[i], side, wanted, now, books);
      match o {
        case NotAsked =>
        case Dropped(considered) =>
          r := r.(considered := r.considered + (if considered then 1 else 0), rejected := r.rejected + 1);
        case Offered(offer) =>
          r := r.(considered := r.considered + 1);
          if r.best.None? || Better(offer, r.best.value, side) {
            r := r.(best := Some(offer));
          }
      }
      ConsiderNext(p, quotes, i, side, wanted, now, books, before);
    }
    assert quotes[..|quotes|] == quotes;
  }

  lemma NobodyYet(p: Policy, side: Side, wanted: int64, now: int, books: Books)
    ensures IsBestExecution(p, map[], side, wanted, now, books, BestExecution(None, 0, 0))
  {
    hide Consider;
    assert VenuesWhere(map[], Asked(p, side, wanted, now, books)) == {};
    assert VenuesWhere(map[], Refused(p, side, wanted, now, books)) == {};
  }

  /** One more venue's outcome folded in. */
  function Folded(r: BestExecution, o: Outcome, side: Side): BestExecution {
    match o
    case NotAsked => r
    case Dropped(considered) =>
      r.(considered := r.considered + (if considered then 1 else 0), rejected := r.rejected + 1)
    case Offered(offer) =>
      r.(considered := r.considered + 1,
         best := if r.best.None? || Better(offer, r.best.value, side) then Some(offer) else r.best)
  }

  lemma ConsiderNext(p: Policy, qs: seq<Quote>, i: nat, side: Side, wanted: int64, now: int, books: Books,
      r: BestExecution)
    requires i < |qs| && DistinctQuotes(qs) && IsBestExecution(p, ByVenue(qs[..i]), side, wanted, now, books, r)
    ensures IsBestExecution(p, ByVenue(qs[..i + 1]), side, wanted, now, books,
                            Folded(r, Consider(p, qs[i], side, wanted, now, books), side))
  {
    hide Consider, Better, VenuesWhere, IsBestOffer;
    var m, q := ByVenue(qs[..i]), qs[i];
    assert qs[..i + 1][..i] == qs[..i];
    NotByVenue(qs[..i], q.venue);
    WhereNext(m, q, Asked(p, side, wanted, now, books));
    WhereNext(m, q, Refused(p, side, wanted, now, books));
    if r.best.Some? { BestIsFrom(p, qs[..i], side, wanted, now, books, r.best.value); }
    BestNext(p, m, q, side, wanted, now, books, r);
  }

  lemma BestIsFrom(p: Policy, qs: seq<Quote>, side: Side, wanted: int64, now: int, books: Books, o: Offer)
    requires DistinctQuotes(qs) && IsBestOffer(p, ByVenue(qs), side, wanted, now, books, Some(o))
    ensures o.venue in ByVenue(qs)
  {
    hide IsOffer, Better;
    OfferIsFrom(p, qs, side, wanted, now, books, o);
  }

  /** Keeping the better of the leader and one more offer keeps the best of all. */
  lemma BestNext(p: Policy, m: map<string, Quote>, q: Quote, side: Side, wanted: int64, now: int, books: Books,
      r: BestExecution)
    requires q.venue !in m && IsBestOffer(p, m, side, wanted, now, books, r.best)
        && (r.best.Some? ==> r.best.value.venue in m)
    ensures IsBestOffer(p, m[q.venue := q], side, wanted, now, books,
        Folded(r, Consider(p, q, side, wanted, now, books), side).best)
  {
    hide Consider, Better, IsOffer;
    var c := Consider(p, q, side, wanted, now, books);
    var next := Folded(r, c, side);
    if c.Offered? && r.best.Some? {
      OfferVenue(p, q, side, wanted, now, books, c.offer);
      BetterIsOrdered(c.offer, r.best.value, side);
    }
    forall o | IsOffer(p, m[q.venue := q], side, wanted, now, books, o) ensures Beats(next.best, o, side) {
      OfferNext(p, m, q, side, wanted, now, books, o);
      if IsOffer(p, m, side, wanted, now, books, o) {
        assert Beats(r.best, o, side);
        if next.best != r.best && o != r.best.value { BetterIsTransitive(c.offer, r.best.value, o, side); }
      }
    }
    if next.best.Some? { OfferNext(p, m, q, side, wanted, now, books, next.best.value); }
  }

  lemma WhereNext(m: map<string, Quote>, q: Quote, test: Quote -> bool)
    requires q.venue !in m
    ensures |VenuesWhere(m[q.venue := q], test)| == |VenuesWhere(m, test)| + (if test(q) then 1 else 0)
  {
    var next := m[q.venue := q];
    assert VenuesWhere(next, test) == VenuesWhere(m, test) + (if test(q) then {q.venue} else {});
  }

  lemma OfferNext(p: Policy, m: map<string, Quote>, q: Quote, side: Side, wanted: int64, now: int, books: Books,
      o: Offer)
    requires q.venue !in m
    ensures IsOffer(p, m[q.venue := q], side, wanted, now, books, o)
       <==> IsOffer(p, m, side, wanted, now, books, o) || Consider(p, q, side, wanted, now, books) == Offered(o)
  {
    hide Consider;
    var next := m[q.venue := q];
    if IsOffer(p, m, side, wanted, now, books, o) {
      var v :| v in m && Consider(p, m[v], side, wanted, now, books) == Offered(o);
      assert next[v] == m[v];
    }
    if Consider(p, q, side, wanted, now, books) == Offered(o) { assert next[q.venue] == q; }
  }

  lemma OfferVenue(p: Policy, q: Quote, side: Side, wanted: int64, now: int, books: Books, o: Offer)
    requires Consider(p, q, side, wanted, now, books) == Offered(o)
    ensures o.venue == q.venue
  {
    hide Trade, ApplyTakerFee;
  }

  /** An offer's venue is among the quotes it was made from. */
  lemma OfferIsFrom(p: Policy, qs: seq<Quote>, side: Side, wanted: int64, now: int, books: Books, o: Offer)
    requires DistinctQuotes(qs) && IsOffer(p, ByVenue(qs), side, wanted, now, books, o)
    ensures o.venue in ByVenue(qs)
  {
    hide Consider;
    ByVenueIs(qs);
    var m := ByVenue(qs);
    var v :| v in m && Consider(p, m[v], side, wanted, now, books) == Offered(o);
    OfferVenue(p, m[v], side, wanted, now, books, o);
  }

  // ----- what the chosen offer is -----

  /** A venue that fills the whole size is chosen before any that does not; among those alike in that,
      the cheapest ask or dearest bid after fees; among equals, the first name. */
  lemma ChosenFillsThenCosts(p: Policy, m: map<string, Quote>, side: Side, wanted: int64, now: int, books: Books,
      r: BestExecution, o: Offer)
    requires IsBestExecution(p, m, side, wanted, now, books, r) && IsOffer(p, m, side, wanted, now, books, o)
    ensures r.best.Some?
    ensures var best := r.best.value;
            && (best.fill.exhausted ==> o.fill.exhausted)
            && (best.fill.exhausted == o.fill.exhausted && side.Ask? ==> best.effective <= o.effective)
            && (best.fill.exhausted == o.fill.exhausted && side.Bid? ==> best.effective >= o.effective)
            && (best.fill.exhausted == o.fill.exhausted && best.effective == o.effective && best != o ==>
                  NameBefore(best.venue, o.venue))
  {
    hide IsOffer, VenuesWhere;
  }

  /** What a venue offers is the trade on its own book, at the average price after its own fee. */
  lemma OfferIsTheTrade(p: Policy, q: Quote, side: Side, wanted: int64, now: int, books: Books, o: Offer)
    requires Consider(p, q, side, wanted, now, books) == Offered(o)
    ensures Usable(p, q, side, now) && q.venue in books && books[q.venue].spec == p.spec && o.venue == q.venue
    ensures var b := books[q.venue];
            && o.fill.status.Ok? && INT64_MIN <= o.fill.vwap <= INT64_MAX
            && (side.Ask? ==> LevelsOk(b.asks) && o.fill == Trade(b.asks, Ask, wanted))
            && (side.Bid? ==> LevelsOk(b.bids) && o.fill == Trade(b.bids, Bid, wanted))
            && ApplyTakerFee(o.fill.vwap, side, q.taker) == Some(o.effective)
  {
    hide Trade, ApplyTakerFee;
    assert BookOk(books[q.venue]);
  }

  predicate LevelsOk(ls: seq<Level>) { forall i :: 0 <= i < |ls| ==> LevelOk(ls[i]) }

  /** A usable venue with a book is asked exactly when that book is this instrument's and fresh; when it
      is not asked, or what it answers cannot be priced, it is rejected. */
  lemma AskedOrRejected(p: Policy, q: Quote, side: Side, wanted: int64, now: int, books: Books)
    requires Usable(p, q, side, now) && q.venue in books
    ensures var b := books[q.venue];
            var stale := p.enforce && (b.lastUpdate <= 0 || b.lastUpdate > now || p.maxAge <= 0
                                       || b.lastUpdate < now - p.maxAge);
            && (Asked(p, side, wanted, now, books)(q) <==> b.spec == p.spec && !stale)
            && (Refused(p, side, wanted, now, books)(q) <==> !Consider(p, q, side, wanted, now, books).Offered?)
  {
    hide Trade, ApplyTakerFee;
  }

  // ----- which venues are accounted for -----

  /** A usable venue is counted, as considered or as rejected, exactly when it has a book; one that is
      not usable is not counted at all. */
  lemma CountedIffBook(p: Policy, q: Quote, side: Side, wanted: int64, now: int, books: Books)
    ensures Asked(p, side, wanted, now, books)(q) || Refused(p, side, wanted, now, books)(q) <==>
              Usable(p, q, side, now) && q.venue in books
  {
    hide Trade, ApplyTakerFee;
  }

  /** So the counts cover every usable venue exactly when every usable venue has a book. */
  lemma AllCountedIffAllHaveBooks(p: Policy, m: map<string, Quote>, side: Side, wanted: int64, now: int, books: Books)
    ensures var usable := VenuesWhere(m, q => Usable(p, q, side, now));
            var asked := VenuesWhere(m, Asked(p, side, wanted, now, books));
            var counted := asked + VenuesWhere(m, Refused(p, side, wanted, now, books));
            && counted <= usable
            && (usable <= counted <==> forall v :: v in usable ==> m[v].venue in books)
  {
    hide Consider;
    forall v | v in m
      ensures Asked(p, side, wanted, now, books)(m[v]) || Refused(p, side, wanted, now, books)(m[v]) <==>
              Usable(p, m[v], side, now) && m[v].venue in books
    {
      CountedIffBook(p, m[v], side, wanted, now, books);
    }
  }

  /** A usable venue without a book: neither considered nor rejected, though it was dropped. */
  lemma VenueWithoutABookIsUncounted() returns (p: Policy, q: Quote)
    ensures Acceptable(q, p.spec) && Usable(p, q, Ask, 1)
    ensures forall wanted: int64 :: IsBestExecution(p, map[q.venue := q], Ask, wanted, 1, map[],
        BestExecution(None, 0, 0))
  {
    p := Policy(Spec("BTC/USD", 1, 8), 1, true);
    q := Quote("kraken", p.spec, Quoted(0, 0), Quoted(452_835, 1), false, true, 1, 0, true);
    var m := map[q.venue := q];
    forall wanted: int64 ensures IsBestExecution(p, m, Ask, wanted, 1, map[], BestExecution(None, 0, 0)) {
      assert VenuesWhere(m, Asked(p, Ask, wanted, 1, map[])) == {};
      assert VenuesWhere(m, Refused(p, Ask, wanted, 1, map[])) == {};
    }
  }
}
