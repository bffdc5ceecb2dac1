/** Sequence continuity: which updates continue the snapshot, and when continuity is lost. */
module Sequencing {
  import opened CoreTypes

  datatype Policy = Spot | Futures | Strict

  /** First and last id an update covers, and the last id of the update before it. */
  datatype UpdateIds = UpdateIds(first: uint64, final: uint64, prev: uint64)

  datatype Action = Apply | DiscardStale | ResyncRequired

  datatype SequenceStats = SequenceStats(applied: nat, discardedStale: nat, gaps: nat, snapshots: nat)

  datatype Tracker = Tracker(
    policy: Policy, snapshotId: uint64, lastFinalId: uint64, haveSnapshot: bool, straddled: bool, stats: SequenceStats)

  function Successor(id: uint64): uint64 { (id + 1) % U64_MODULUS }

  function Fresh(policy: Policy): Tracker { Tracker(policy, 0, 0, false, false, SequenceStats(0, 0, 0, 0)) }

  /** The id the book stands at: of the last applied update, or of the snapshot before any. */
  function Position(t: Tracker): uint64 { if t.straddled then t.lastFinalId else t.snapshotId }

  /** Does an update carry on from where the book stands?  Before the first one, spot must straddle
      the id after the snapshot and futures the snapshot's own id. */
  predicate Follows(t: Tracker, ids: UpdateIds) {
    match t.policy
    case Strict => ids.final == Successor(Position(t)) && (t.straddled || t.snapshotId < ids.final)
    case Spot =>
      if t.straddled then ids.first == Successor(t.lastFinalId)
      else ids.first <= Successor(t.snapshotId) <= ids.final
    case Futures =>
      if t.straddled then ids.prev == t.lastFinalId
      else ids.first <= t.snapshotId <= ids.final
  }

  /** Is an update that does not follow entirely behind the book? */
  predicate Stale(t: Tracker, ids: UpdateIds) {
    if t.straddled || t.policy.Strict? then ids.final <= Position(t)
    else ids.final < if t.policy.Spot? then Successor(t.snapshotId) else t.snapshotId
  }

  function Classify(t: Tracker, ids: UpdateIds): Action {
    if !t.haveSnapshot then ResyncRequired
    else if Follows(t, ids) then Apply
    else if Stale(t, ids) then DiscardStale
    else ResyncRequired
  }

  function OnUpdate(t: Tracker, ids: UpdateIds): Tracker {
    match Classify(t, ids)
    case Apply => t.(straddled := true, lastFinalId := ids.final, stats := t.stats.(applied := t.stats.applied + 1))
    case DiscardStale => t.(stats := t.stats.(discardedStale := t.stats.discardedStale + 1))
    case ResyncRequired =>
      if t.haveSnapshot then t.(haveSnapshot := false, stats := t.stats.(gaps := t.stats.gaps + 1)) else t
  }

  function OnSnapshot(t: Tracker, id: uint64): Tracker {
    t.(snapshotId := id, haveSnapshot := true, straddled := false, lastFinalId := 0,
       stats := t.stats.(snapshots := t.stats.snapshots + 1))
  }

  function Invalidate(t: Tracker): Tracker { t.(haveSnapshot := false, straddled := false) }

  class SequenceTracker {
    const policy: Policy
    var snapshotId: uint64
    var lastFinalId: uint64
    var haveSnapshot: bool
    var straddled: bool
    var stats: SequenceStats

    function State(): Tracker
      reads this
    {
      Tracker(policy, snapshotId, lastFinalId, haveSnapshot, straddled, stats)
    }

    constructor (policy: Policy)
      ensures State() == Fresh(policy)
    {
      this.policy := policy;
      snapshotId, lastFinalId := 0, 0;
      haveSnapshot, straddled := false, false;
      stats := SequenceStats(0, 0, 0, 0);
    }

    method RecordSnapshot(id: uint64)
      modifies this
      ensures State() == OnSnapshot(old(State()), id)
    {
      snapshotId := id;
      haveSnapshot := true;
      straddled := false;
      lastFinalId := 0;
      stats := stats.(snapshots := stats.snapshots + 1);
    }

    method Accept(ids: UpdateIds) returns (a: Action)
      modifies this
      ensures a == Apply
      ensures State() == old(State()).(straddled := true, lastFinalId := ids.final,
                                       stats := old(stats).(applied := old(stats).applied + 1))
    {
      straddled := true;
      lastFinalId := ids.final;
      stats := stats.(applied := stats.applied + 1);
      a := Apply;
    }

    method Discard() returns (a: Action)
      modifies this`stats
      ensures a == DiscardStale && stats == old(stats).(discardedStale := old(stats).discardedStale + 1)
    {
      stats := stats.(discardedStale := stats.discardedStale + 1);
      a := DiscardStale;
    }

    method Gap() returns (a: Action)
      modifies this`stats, this`haveSnapshot
      ensures a == ResyncRequired && !haveSnapshot && stats == old(stats).(gaps := old(stats).gaps + 1)
    {
      stats := stats.(gaps := stats.gaps + 1);
      haveSnapshot := false;
      a := ResyncRequired;
    }

    /** Classify an update and advance. */
    method Update(ids: UpdateIds) returns (a: Action)
      modifies this
      ensures a == Classify(old(State()), ids) && State() == OnUpdate(old(State()), ids)
    {
      if !haveSnapshot {
        return ResyncRequired;
      }
      if policy == Strict {
        if !straddled {
          if ids.final <= snapshotId {
            a := Discard();
            return;
          }
          if ids.final != Successor(snapshotId) {
            a := Gap();
            return;
          }
        } else if ids.final != Successor(lastFinalId) {
          if ids.final <= lastFinalId {
            a := Discard();
            return;
          }
          a := Gap();
          return;
        }
        a := Accept(ids);
        return;
      }
      var anchor := if policy == Spot then Successor(snapshotId) else snapshotId;
      if !straddled {
        if ids.final < anchor {
          a := Discard();
          return;
        }
        if !(ids.first <= anchor && ids.final >= anchor) {
          a := Gap();
          return;
        }
        a := Accept(ids);
        return;
      }
      var continuous := if policy == Spot then ids.first == Successor(lastFinalId) else ids.prev == lastFinalId;
      if !continuous {
        if ids.final <= lastFinalId {
          a := Discard();
          return;
        }
        a := Gap();
        return;
      }
      a := Accept(ids);
    }

    method Drop()
      modifies this
      ensures State() == Invalidate(old(State()))
    {
      haveSnapshot := false;
      straddled := false;
    }
  }

  // ----- runs -----

  datatype Event = Snapshot(id: uint64) | Update(ids: UpdateIds) | Invalidated

  function Next(t: Tracker, e: Event): Tracker {
    match e
    case Snapshot(id) => OnSnapshot(t, id)
    case Update(ids) => OnUpdate(t, ids)
    case Invalidated => Invalidate(t)
  }

  function Run(t: Tracker, es: seq<Event>): Tracker {
    if es == [] then t else Next(Run(t, es[..|es| - 1]), es[|es| - 1])
  }

  /** Once out of sync, whatever arrives but a snapshot leaves it so, and no update is applied. */
  lemma {:induction false} UnsyncedUntilSnapshot(t: Tracker, es: seq<Event>)
    requires !t.haveSnapshot && forall i :: 0 <= i < |es| ==> !es[i].Snapshot?
    ensures !Run(t, es).haveSnapshot && Run(t, es).stats == t.stats
    ensures forall ids :: Classify(Run(t, es), ids) == ResyncRequired
  {
    if es != [] { UnsyncedUntilSnapshot(t, es[..|es| - 1]); }
  }

  /** Every update is counted exactly once while synced: applied, discarded, or a gap. */
  lemma EachUpdateCountedOnce(t: Tracker, ids: UpdateIds)
    ensures var s, s' := t.stats, OnUpdate(t, ids).stats;
            s'.applied + s'.discardedStale + s'.gaps
              == s.applied + s.discardedStale + s.gaps + (if t.haveSnapshot then 1 else 0)
  {
  }

  /** What the tracker's policy asks of one event after another. */
  predicate Chained(policy: Policy, before: UpdateIds, e: UpdateIds) {
    match policy
    case Spot => e.first == before.final + 1
    case Futures => e.prev == before.final
    case Strict => e.final == before.final + 1
  }

  /** An event ends no earlier than it starts. */
  predicate Forward(policy: Policy, e: UpdateIds) {
    && (!policy.Strict? ==> e.first <= e.final)
    && (policy.Futures? ==> e.prev <= e.final)
  }

  /** A stream with no gap in it. */
  predicate Contiguous(policy: Policy, ids: seq<UpdateIds>) {
    && (forall i :: 0 <= i < |ids| ==> Forward(policy, ids[i]))
    && (forall i :: 0 < i < |ids| ==> Chained(policy, ids[i - 1], ids[i]))
  }

  /** Having heard the stream up to id `heard` (-1 for nothing), has it reached the snapshot? */
  predicate Reached(policy: Policy, snap: uint64, heard: int) {
    match policy
    case Spot => heard >= Successor(snap)
    case Futures => heard >= snap
    case Strict => heard > snap
  }

  /** The event that first reaches the snapshot also starts early enough to join it.  On futures the
      ids between two events belong to neither, and a snapshot taken there is one no event joins. */
  predicate Joins(policy: Policy, snap: uint64, e: UpdateIds) {
    match policy
    case Spot => e.first <= Successor(snap)
    case Futures => e.first <= snap || e.final < snap
    case Strict => e.final <= snap + 1
  }

  /** The last id heard before event `i`. */
  function HeardBefore(ids: seq<UpdateIds>, i: nat): int
    requires i <= |ids|
  {
    if i == 0 then -1 else ids[i - 1].final
  }

  predicate ReachesBack(policy: Policy, snap: uint64, ids: seq<UpdateIds>) {
    forall i :: 0 <= i < |ids| && !Reached(policy, snap, HeardBefore(ids, i)) ==> Joins(policy, snap, ids[i])
  }

  function Updates(ids: seq<UpdateIds>): seq<Event> { seq(|ids|, i requires 0 <= i < |ids| => Update(ids[i])) }

  /** Synced from snapshot `snap` with nothing lost, having heard the stream up to id `heard`. */
  predicate Hears(t: Tracker, snap: uint64, gaps: nat, heard: int) {
    && t.haveSnapshot && t.snapshotId == snap && t.stats.gaps == gaps
    && (if Reached(t.policy, snap, heard) then t.straddled && t.lastFinalId == heard else !t.straddled)
  }

  /** One event is where the stream either joins the snapshot or demands another. */
  lemma HearsNext(t: Tracker, snap: uint64, gaps: nat, heard: int, e: UpdateIds)
    requires Hears(t, snap, gaps, heard) && Forward(t.policy, e)
    requires Reached(t.policy, snap, heard) ==> 0 <= heard < U64_MODULUS && Chained(t.policy, UpdateIds(0, heard, 0), e)
    ensures OnUpdate(t, e).policy == t.policy
    ensures if Reached(t.policy, snap, heard) || Joins(t.policy, snap, e) then
              Hears(OnUpdate(t, e), snap, gaps, e.final)
            else !OnUpdate(t, e).haveSnapshot
  {
  }

  /** A contiguous stream demands a resync exactly when it does not reach back to the snapshot: on
      spot to the id after it, on futures with some event across it.  When it does, it stays synced
      throughout and ends at the stream's own last id, once that has reached the snapshot. */
  lemma {:induction false} ContiguousNeverResyncs(t: Tracker, ids: seq<UpdateIds>)
    requires Hears(t, t.snapshotId, t.stats.gaps, -1) && Contiguous(t.policy, ids)
    ensures var end := Run(t, Updates(ids));
            && end.policy == t.policy
            && (end.haveSnapshot <==> ReachesBack(t.policy, t.snapshotId, ids))
            && (end.haveSnapshot ==> Hears(end, t.snapshotId, t.stats.gaps, HeardBefore(ids, |ids|)))
  {
    hide Hears, OnUpdate, Joins, Reached, Chained, ReachesBack, Forward;
    if ids == [] {
      NothingToReach(t.policy, t.snapshotId, ids);
      HearsIsSynced(t, t.snapshotId, t.stats.gaps, -1);
    } else {
      var n := |ids| - 1;
      var front, snap, gaps := ids[..n], t.snapshotId, t.stats.gaps;
      ContiguousFront(t.policy, ids);
      assert Updates(ids)[..n] == Updates(front);
      ContiguousNeverResyncs(t, front);
      ReachesBackNext(t.policy, snap, ids);
      var mid, heard := Run(t, Updates(front)), HeardBefore(ids, n);
      if mid.haveSnapshot {
        ChainedToHeard(t.policy, ids, n);
        HearsNext(mid, snap, gaps, heard, ids[n]);
        var end := OnUpdate(mid, ids[n]);
        if end.haveSnapshot { HearsIsSynced(end, snap, gaps, ids[n].final); }
      } else {
        StaysUnsynced(mid, ids[n]);
      }
    }
  }

  lemma HearsIsSynced(t: Tracker, snap: uint64, gaps: nat, heard: int)
    ensures Hears(t, snap, gaps, heard) ==> t.haveSnapshot
  {
  }

  lemma StaysUnsynced(t: Tracker, e: UpdateIds)
    requires !t.haveSnapshot
    ensures OnUpdate(t, e) == t
  {
  }

  lemma ContiguousFront(policy: Policy, ids: seq<UpdateIds>)
    requires ids != [] && Contiguous(policy, ids)
    ensures Contiguous(policy, ids[..|ids| - 1])
    ensures Forward(policy, ids[|ids| - 1])
  {
    hide Chained;
  }

  lemma ChainedToHeard(policy: Policy, ids: seq<UpdateIds>, i: nat)
    requires i < |ids| && Contiguous(policy, ids)
    ensures var heard := HeardBefore(ids, i);
            heard >= 0 ==> heard < U64_MODULUS && Chained(policy, UpdateIds(0, heard, 0), ids[i])
    ensures forall snap: uint64 :: Reached(policy, snap, HeardBefore(ids, i)) ==> HeardBefore(ids, i) >= 0
  {
  }

  lemma NothingToReach(policy: Policy, snap: uint64, ids: seq<UpdateIds>)
    requires ids == []
    ensures ReachesBack(policy, snap, ids)
  {
  }

  lemma ReachesBackNext(policy: Policy, snap: uint64, ids: seq<UpdateIds>)
    requires ids != []
    ensures var n := |ids| - 1;
            && HeardBefore(ids, n) == HeardBefore(ids[..n], n)
            && (ReachesBack(policy, snap, ids) <==>
                ReachesBack(policy, snap, ids[..n])
                && (Reached(policy, snap, HeardBefore(ids, n)) || Joins(policy, snap, ids[n])))
  {
    hide Joins, Reached;
    var n := |ids| - 1;
    var front := ids[..n];
    forall i | 0 <= i <= n ensures HeardBefore(front, i) == HeardBefore(ids, i) {}
    forall i | 0 <= i < n ensures front[i] == ids[i] {}
    if ReachesBack(policy, snap, ids) {
      forall i | 0 <= i < n && !Reached(policy, snap, HeardBefore(front, i)) ensures Joins(policy, snap, front[i]) {
        assert Joins(policy, snap, ids[i]);
      }
      assert Reached(policy, snap, HeardBefore(ids, n)) || Joins(policy, snap, ids[n]);
    }
    if ReachesBack(policy, snap, front) && (Reached(policy, snap, HeardBefore(ids, n)) || Joins(policy, snap, ids[n])) {
      forall i | 0 <= i < |ids| && !Reached(policy, snap, HeardBefore(ids, i)) ensures Joins(policy, snap, ids[i]) {
        if i < n { assert Joins(policy, snap, front[i]); }
      }
    }
  }

  // ----- repeats, gaps, and a stream with both -----

  /** What is behind the position costs nothing: a repeated or late update leaves the tracker in sync
      and where it was. */
  lemma BehindKeepsSync(t: Tracker, ids: UpdateIds)
    requires t.haveSnapshot && Forward(t.policy, ids) && ids.final <= Position(t) < U64_MODULUS - 1
    ensures var after := OnUpdate(t, ids);
            after.haveSnapshot && after.stats.gaps == t.stats.gaps && Position(after) == Position(t)
    ensures !(t.policy.Futures? && ids.final == Position(t)) ==> Classify(t, ids) == DiscardStale
  {
  }

  /** Exactly when: what is behind costs sync only before anything was applied, on spot at the last
      64-bit id, or on futures when an event ending at the snapshot starts after it. */
  lemma BehindCostsSyncIff(t: Tracker, ids: UpdateIds)
    requires t.haveSnapshot && ids.final <= Position(t)
    ensures !OnUpdate(t, ids).haveSnapshot <==>
              && !t.straddled
              && ((t.policy.Spot? && t.snapshotId == U64_MODULUS - 1 && ids.first > 0)
                  || (t.policy.Futures? && ids.final == t.snapshotId < ids.first))
  {
  }

  /** What ends beyond the position is never discarded: it is applied when it joins on, and otherwise
      it is a gap, which costs sync. */
  lemma BeyondIsAppliedOrGap(t: Tracker, ids: UpdateIds)
    requires t.haveSnapshot && Position(t) < ids.final
    ensures var at := Position(t);
            var joins := match t.policy
                         case Spot => if t.straddled then ids.first == at + 1 else ids.first <= at + 1
                         case Futures => if t.straddled then ids.prev == at else ids.first <= at
                         case Strict => ids.final == at + 1;
            && Classify(t, ids) == (if joins then Apply else ResyncRequired)
            && OnUpdate(t, ids).haveSnapshot == joins
            && OnUpdate(t, ids).stats.gaps == t.stats.gaps + (if joins then 0 else 1)
  {
  }

  /** Each verdict moves its own counter, and only that one. */
  lemma VerdictsAreCounted(t: Tracker, ids: UpdateIds)
    requires t.haveSnapshot
    ensures var a, s, after := Classify(t, ids), t.stats, OnUpdate(t, ids).stats;
            && after.applied - s.applied == (if a == Apply then 1 else 0)
            && after.discardedStale - s.discardedStale == (if a == DiscardStale then 1 else 0)
            && after.gaps - s.gaps == (if a == ResyncRequired then 1 else 0)
            && after.snapshots == s.snapshots
  {
  }

  /** How much of a stream a delivery order has got through, when each delivery is a number in it. */
  function Frontier(order: seq<nat>): nat {
    if order == [] then 0
    else
      var n, last := Frontier(order[..|order| - 1]), order[|order| - 1];
      if last < n then n else last + 1
  }

  /** In order but for repeats: each delivery is the next event or one delivered before. */
  predicate Redelivers(order: seq<nat>) {
    forall k :: 0 <= k < |order| ==> order[k] <= Frontier(order[..k])
  }

  function Delivered(ids: seq<UpdateIds>, order: seq<nat>): seq<UpdateIds>
    requires forall k :: 0 <= k < |order| ==> order[k] < |ids|
  {
    seq(|order|, k requires 0 <= k < |order| => ids[order[k]])
  }

  /** Ids never reach the last 64-bit number, after which the counter would wrap. */
  predicate NeverWraps(ids: seq<UpdateIds>) { forall i :: 0 <= i < |ids| ==> ids[i].final < U64_MODULUS - 1 }

  /** Repeats do not matter: a contiguous stream delivered with any of its events again, any number of
      times, stays in sync exactly when the same stream delivered once would, and ends where it would. */
  lemma {:induction false} RepeatsDoNotMatter(t: Tracker, ids: seq<UpdateIds>, order: seq<nat>)
    requires Hears(t, t.snapshotId, t.stats.gaps, -1) && t.snapshotId < U64_MODULUS - 1
    requires Contiguous(t.policy, ids) && NeverWraps(ids)
    requires Redelivers(order) && forall k :: 0 <= k < |order| ==> order[k] < |ids|
    ensures Frontier(order) <= |ids|
    ensures var end, n := Run(t, Updates(Delivered(ids, order))), Frontier(order);
            && end.policy == t.policy
            && (end.haveSnapshot <==> ReachesBack(t.policy, t.snapshotId, ids[..n]))
            && (end.haveSnapshot ==> Hears(end, t.snapshotId, t.stats.gaps, HeardBefore(ids, n)))
  {
    hide Hears, OnUpdate, Joins, Reached, Chained, ReachesBack, Forward, Contiguous, NeverWraps;
    if order == [] {
      assert Delivered(ids, order) == [] && ids[..0] == [];
      NothingToReach(t.policy, t.snapshotId, ids[..0]);
      HearsIsSynced(t, t.snapshotId, t.stats.gaps, -1);
    } else {
      var k := |order| - 1;
      var front, e := order[..k], ids[order[k]];
      RedeliversFront(order);
      assert Updates(Delivered(ids, order))[..k] == Updates(Delivered(ids, front));
      RepeatsDoNotMatter(t, ids, front);
      var mid, n := Run(t, Updates(Delivered(ids, front))), Frontier(front);
      if !mid.haveSnapshot {
        StaysUnsynced(mid, e);
        if order[k] == n { StillShort(t.policy, t.snapshotId, ids, n); }
      } else if order[k] == n {
        NextDelivered(t, mid, ids, n);
      } else {
        RepeatDelivered(t, mid, ids, n, order[k]);
      }
    }
  }

  lemma RedeliversFront(order: seq<nat>)
    requires Redelivers(order) && order != []
    ensures Redelivers(order[..|order| - 1]) && order[|order| - 1] <= Frontier(order[..|order| - 1])
  {
    var k := |order| - 1;
    forall j | 0 <= j < k ensures order[..k][j] <= Frontier(order[..k][..j]) {
      assert order[..k][..j] == order[..j];
    }
  }

  lemma StillShort(policy: Policy, snap: uint64, ids: seq<UpdateIds>, n: nat)
    requires n < |ids| && !ReachesBack(policy, snap, ids[..n])
    ensures !ReachesBack(policy, snap, ids[..n + 1])
  {
    hide ReachesBack;
    assert ids[..n + 1][..n] == ids[..n];
    ReachesBackNext(policy, snap, ids[..n + 1]);
  }

  lemma NextDelivered(t: Tracker, mid: Tracker, ids: seq<UpdateIds>, n: nat)
    requires n < |ids| && Contiguous(t.policy, ids) && mid.policy == t.policy && mid.haveSnapshot
    requires Hears(mid, t.snapshotId, t.stats.gaps, HeardBefore(ids, n))
    requires ReachesBack(t.policy, t.snapshotId, ids[..n])
    ensures var end := OnUpdate(mid, ids[n]);
            && end.policy == t.policy
            && (end.haveSnapshot <==> ReachesBack(t.policy, t.snapshotId, ids[..n + 1]))
            && (end.haveSnapshot ==> Hears(end, t.snapshotId, t.stats.gaps, HeardBefore(ids, n + 1)))
  {
    hide Hears, OnUpdate, Joins, Reached, Chained, ReachesBack;
    var snap, gaps, heard := t.snapshotId, t.stats.gaps, HeardBefore(ids, n);
    assert ids[..n + 1][..n] == ids[..n];
    ReachesBackNext(t.policy, snap, ids[..n + 1]);
    SameHeard(ids, n);
    ChainedToHeard(t.policy, ids, n);
    HearsNext(mid, snap, gaps, heard, ids[n]);
    var end := OnUpdate(mid, ids[n]);
    if end.haveSnapshot { HearsIsSynced(end, snap, gaps, ids[n].final); }
    assert Hears(end, snap, gaps, ids[n].final) ==> end.haveSnapshot by {
      HearsIsSynced(end, snap, gaps, ids[n].final);
    }
  }

  lemma SameHeard(ids: seq<UpdateIds>, n: nat)
    requires n < |ids|
    ensures HeardBefore(ids[..n + 1], n) == HeardBefore(ids, n)
    ensures ids[..n + 1][n] == ids[n]
  {
  }

  /** In a contiguous stream nothing ends beyond what comes after it. */
  lemma {:induction false} FinalsAscend(policy: Policy, ids: seq<UpdateIds>, i: nat, j: nat)
    requires Contiguous(policy, ids) && i <= j < |ids|
    ensures ids[i].final <= ids[j].final
    decreases j
  {
    if i < j { FinalsAscend(policy, ids, i, j - 1); }
  }

  lemma RepeatDelivered(t: Tracker, mid: Tracker, ids: seq<UpdateIds>, n: nat, i: nat)
    requires i < n <= |ids| && Contiguous(t.policy, ids) && NeverWraps(ids) && t.snapshotId < U64_MODULUS - 1
    requires mid.policy == t.policy && Hears(mid, t.snapshotId, t.stats.gaps, HeardBefore(ids, n))
    ensures OnUpdate(mid, ids[i]).policy == t.policy
    ensures Hears(OnUpdate(mid, ids[i]), t.snapshotId, t.stats.gaps, HeardBefore(ids, n))
    ensures OnUpdate(mid, ids[i]).haveSnapshot
  {
    FinalsAscend(t.policy, ids, i, n - 1);
    HearsAgain(mid, t.snapshotId, t.stats.gaps, ids[n - 1].final, ids[i]);
  }

  /** Hearing something no later than what was heard changes nothing. */
  lemma HearsAgain(t: Tracker, snap: uint64, gaps: nat, heard: uint64, e: UpdateIds)
    requires Hears(t, snap, gaps, heard) && Forward(t.policy, e) && e.final <= heard < U64_MODULUS - 1
    requires snap < U64_MODULUS - 1
    ensures OnUpdate(t, e).policy == t.policy && Hears(OnUpdate(t, e), snap, gaps, heard)
  {
  }

  // ----- when an applied update moves the position forward -----

  /** On spot an applied update covers the id after the position, and moves it forward to its own
      end, exactly when that id exists and the update does not end before it starts. */
  lemma SpotAppliesWithoutHoles(t: Tracker, ids: UpdateIds)
    requires t.policy.Spot? && Classify(t, ids) == Apply
    ensures Position(OnUpdate(t, ids)) == ids.final
    ensures Position(OnUpdate(t, ids)) > Position(t) <==> Position(t) < U64_MODULUS - 1 && ids.first <= ids.final
    ensures ids.first <= Position(t) + 1 <= ids.final <==> Position(t) < U64_MODULUS - 1 && ids.first <= ids.final
  {
  }

  /** With one counter, an applied update is the next id unless the counter has wrapped. */
  lemma StrictAdvances(t: Tracker, ids: UpdateIds)
    requires t.policy.Strict? && Classify(t, ids) == Apply
    ensures Position(OnUpdate(t, ids)) == ids.final
    ensures ids.final == Position(t) + 1 <==> Position(t) < U64_MODULUS - 1
    ensures Position(OnUpdate(t, ids)) > Position(t) <==> Position(t) < U64_MODULUS - 1
  {
  }

  /** On futures an applied update moves the position back exactly when it is not the first after
      the snapshot and ends before the id it continues. */
  lemma FuturesAdvances(t: Tracker, ids: UpdateIds)
    requires t.policy.Futures? && Classify(t, ids) == Apply
    ensures Position(OnUpdate(t, ids)) == ids.final
    ensures Position(OnUpdate(t, ids)) >= Position(t) <==> (t.straddled ==> ids.prev <= ids.final)
    ensures Position(OnUpdate(t, ids)) > Position(t) <==> (if t.straddled then ids.prev else t.snapshotId) < ids.final
  {
  }

  /** Under every policy, what is discarded is behind the position, which does not move. */
  lemma DiscardsAreBehind(t: Tracker, ids: UpdateIds)
    requires Classify(t, ids) == DiscardStale
    ensures ids.final <= Position(t) && Position(OnUpdate(t, ids)) == Position(t) && OnUpdate(t, ids).haveSnapshot
  {
  }

  /** An in-sync tracker has some update it would apply, except one counter at the last id. */
  lemma SomethingFollows(t: Tracker)
    ensures (exists ids :: Classify(t, ids) == Apply) <==>
              t.haveSnapshot && !(t.policy.Strict? && !t.straddled && t.snapshotId == U64_MODULUS - 1)
  {
    var next := Successor(Position(t));
    if t.haveSnapshot && !(t.policy.Strict? && !t.straddled && t.snapshotId == U64_MODULUS - 1) {
      var ids := if t.policy.Futures? then UpdateIds(Position(t), Position(t), Position(t))
          else UpdateIds(next, next, 0);
      assert Classify(t, ids) == Apply;
    }
  }

  /** The tracker trusts that ids do not wrap: at the last 64-bit id the spot anchor becomes zero,
      so an update from the distant past is applied. */
  lemma WrapAppliesThePast() returns (t: Tracker, ids: UpdateIds)
    ensures t.policy.Spot? && t.haveSnapshot && ids.first <= ids.final < t.snapshotId && Classify(t, ids) == Apply
  {
    t := OnSnapshot(Fresh(Spot), U64_MODULUS - 1);
    ids := UpdateIds(0, 5, 0);
  }

  /** Nor does it check that an update ends after it starts: a continuing event with a final id
      behind its first moves the position back. */
  lemma BackwardEventMovesBack() returns (t: Tracker, ids: UpdateIds)
    ensures t.haveSnapshot && Classify(t, ids) == Apply && Position(OnUpdate(t, ids)) < Position(t)
  {
    t := OnUpdate(OnSnapshot(Fresh(Spot), 10), UpdateIds(11, 20, 0));
    ids := UpdateIds(21, 3, 0);
  }
}
