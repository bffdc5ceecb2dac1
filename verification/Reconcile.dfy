/** A venue as a numbered log of absolute level changes, and what a feed that listens to it holds. */
module Reconcile {
  import opened CoreTypes
  import opened PriceWindow
  import opened Depth
  import opened Sequencing
  import opened Checksums
  import opened FeedModel

  // ----- updates, one side and one price at a time -----

  function SideList(us: seq<LevelUpdate>, s: Side): seq<Level> {
    if us == [] then []
    else
      var u := us[|us| - 1];
      SideList(us[..|us| - 1], s) + OfSide(u, s)
  }

  lemma {:induction false} SideOfAll(b: Book, us: seq<LevelUpdate>, s: Side)
    ensures SideMap(ApplyAll(b, us), s) == ApplyList(SideMap(b, s), SideList(us, s))
  {
    hide ApplyOne, ApplyLevel, ApplyList, SideList, ApplyAll;
    if us == [] {
      NothingApplied(b, us, s);
    } else {
      var n := |us| - 1;
      var list := SideList(us[..n], s);
      SideOfAll(b, us[..n], s);
      LastApplied(b, us, s);
      OneMoreOfSide(ApplyAll(b, us[..n]), us[n], s);
      assert list + [] == list;
      ApplyListNext(SideMap(b, s), list, Level(us[n].price, us[n].qty));
    }
  }

  lemma NothingApplied(b: Book, us: seq<LevelUpdate>, s: Side)
    requires us == []
    ensures SideMap(ApplyAll(b, us), s) == ApplyList(SideMap(b, s), SideList(us, s))
  {
  }

  lemma LastApplied(b: Book, us: seq<LevelUpdate>, s: Side)
    requires us != []
    ensures var u := us[|us| - 1];
            && ApplyAll(b, us) == ApplyOne(ApplyAll(b, us[..|us| - 1]), u)
            && SideList(us, s) == SideList(us[..|us| - 1], s) + OfSide(u, s)
  {
    hide ApplyOne, Refused;
  }

  /** The update as one side sees it. */
  function OfSide(u: LevelUpdate, s: Side): seq<Level> {
    if u.side == s && !Refused(u) then [Level(u.price, u.qty)] else []
  }

  lemma OneMoreOfSide(b: Book, u: LevelUpdate, s: Side)
    ensures SideMap(ApplyOne(b, u), s) ==
            if OfSide(u, s) == [] then SideMap(b, s) else ApplyLevel(SideMap(b, s), u.price, u.qty)
  {
    hide ApplyLevel;
  }

  lemma ApplyListNext(m: map<int, int>, list: seq<Level>, l: Level)
    ensures ApplyList(m, list + [l]) == ApplyLevel(ApplyList(m, list), l.price, l.qty)
  {
    hide ApplyLevel;
    assert (list + [l])[..|list|] == list;
  }

  /** The quantity `us` leave at `p`, or None when they do not touch it. */
  function Change(us: seq<LevelUpdate>, s: Side, p: int): Option<int> { LastQty(SideList(us, s), p) }

  ghost predicate NoEmptyLevels(b: Book) { NoZeros(b.bids) && NoZeros(b.asks) }

  lemma QtyAfter(b: Book, us: seq<LevelUpdate>, s: Side, p: int)
    requires NoEmptyLevels(b)
    ensures NoZeros(SideMap(ApplyAll(b, us), s))
    ensures QtyOf(SideMap(ApplyAll(b, us), s), p) ==
            var c := Change(us, s, p); if c.None? then QtyOf(SideMap(b, s), p) else c.value
  {
    SideOfAll(b, us, s);
    ApplyListAt(SideMap(b, s), SideList(us, s), p);
  }

  lemma StaysWithoutEmptyLevels(b: Book, us: seq<LevelUpdate>)
    requires NoEmptyLevels(b)
    ensures NoEmptyLevels(ApplyAll(b, us))
  {
    QtyAfter(b, us, Bid, 0);
    QtyAfter(b, us, Ask, 0);
  }

  lemma {:induction false} SideListConcat(us: seq<LevelUpdate>, vs: seq<LevelUpdate>, s: Side)
    ensures SideList(us + vs, s) == SideList(us, s) + SideList(vs, s)
  {
    hide OfSide;
    if vs == [] {
      assert us + vs == us;
    } else {
      var n, u := |vs| - 1, vs[|vs| - 1];
      assert (us + vs)[..|us| + n] == us + vs[..n];
      SideListConcat(us, vs[..n], s);
      assert SideList(us + vs, s) == SideList(us, s) + SideList(vs[..n], s) + OfSide(u, s);
    }
  }

  lemma {:induction false} LastQtyConcat(a: seq<Level>, b: seq<Level>, p: int)
    ensures LastQty(a + b, p) == if LastQty(b, p).Some? then LastQty(b, p) else LastQty(a, p)
  {
    if b == [] {
      assert a + b == a;
    } else {
      assert (a + b)[..|a| + |b| - 1] == a + b[..|b| - 1];
      LastQtyConcat(a, b[..|b| - 1], p);
    }
  }

  lemma {:induction false} ApplyAllConcat(b: Book, us: seq<LevelUpdate>, vs: seq<LevelUpdate>)
    ensures ApplyAll(b, us + vs) == ApplyAll(ApplyAll(b, us), vs)
  {
    if vs == [] {
      assert us + vs == us;
    } else {
      assert (us + vs)[..|us| + |vs| - 1] == us + vs[..|vs| - 1];
      ApplyAllConcat(b, us, vs[..|vs| - 1]);
    }
  }

  // ----- the venue -----

  /** Change number k is log[k - 1]; ids stay clear of the 64-bit wrap. */
  type Log = log: seq<LevelUpdate> | |log| < U64_MODULUS - 1 witness []

  function Truth(log: Log, k: nat): Book
    requires k <= |log|
  {
    ApplyAll(EMPTY, log[..k])
  }

  /** The id an update starts after: everything later, up to its own last id, is in it. */
  function StartsAfter(policy: Policy, ids: UpdateIds): int {
    match policy
    case Spot => ids.first - 1
    case Futures => ids.prev
    case Strict => ids.final - 1
  }

  /** A well-formed range of the venue's log. */
  predicate RangeOk(log: Log, policy: Policy, ids: UpdateIds) {
    && 0 <= StartsAfter(policy, ids) < ids.final <= |log|
    && (policy.Strict? || StartsAfter(policy, ids) < ids.first <= ids.final)
  }

  /** The levels tell the truth as of `final`, and mention every level changed after `from`.  They
      may be in any order and repeat, and intermediate values may be merged. */
  ghost predicate Covers(log: Log, from: nat, final: nat, levels: seq<LevelUpdate>)
    requires from <= final <= |log|
  {
    forall s: Side, p: int :: TellsTruth(log, from, final, levels, s, p)
  }

  ghost predicate TellsTruth(log: Log, from: nat, final: nat, levels: seq<LevelUpdate>, s: Side, p: int)
    requires from <= final <= |log|
  {
    match Change(levels, s, p)
    case None => Change(log[from..final], s, p).None?
    case Some(q) => q == QtyOf(SideMap(Truth(log, final), s), p)
  }

  ghost predicate HonestUpdate(log: Log, policy: Policy, msg: Message) {
    && msg.ids.Some? && RangeOk(log, policy, msg.ids.value)
    && Covers(log, StartsAfter(policy, msg.ids.value), msg.ids.value.final, msg.levels)
  }

  ghost predicate HonestSnapshot(log: Log, msg: Message) {
    msg.ids.Some? && msg.ids.value.final <= |log| && ApplyAll(EMPTY, msg.levels) == Truth(log, msg.ids.value.final)
  }

  /** Anything may happen to the stream - frames lost, repeated, reordered, undecodable - as long as
      what does decode came from this venue. */
  ghost predicate Honest(log: Log, policy: Policy, op: Op) {
    match op
    case Frame(msg) =>
      && (msg.ok && msg.kind.SnapshotKind? ==> HonestSnapshot(log, msg))
      && (msg.ok && msg.kind.UpdateKind? ==> HonestUpdate(log, policy, msg))
    case OutOfBand(msg) => msg.ok ==> HonestSnapshot(log, msg)
    case Reconnect => true
    case Staleness(_, _) => true
  }

  /** An update brings the book from any id inside its range to its last. */
  lemma Advance(log: Log, from: nat, k: nat, final: nat, levels: seq<LevelUpdate>)
    requires from <= k <= final <= |log| && Covers(log, from, final, levels)
    ensures ApplyAll(Truth(log, k), levels) == Truth(log, final)
  {
    hide Truth, ApplyAll;
    var here, there := Truth(log, k), Truth(log, final);
    TruthHasNoEmptyLevels(log, k);
    TruthHasNoEmptyLevels(log, final);
    var next := ApplyAll(here, levels);
    StaysWithoutEmptyLevels(here, levels);
    forall s: Side ensures SideMap(next, s) == SideMap(there, s) {
      forall p: int ensures QtyOf(SideMap(next, s), p) == QtyOf(SideMap(there, s), p) {
        assert TellsTruth(log, from, final, levels, s, p);
        QtyAfter(here, levels, s, p);
        if Change(levels, s, p).None? { Untouched(log, from, k, final, s, p); }
      }
      SameQuantities(SideMap(next, s), SideMap(there, s));
    }
    assert SideMap(next, Bid) == SideMap(there, Bid);
    assert SideMap(next, Ask) == SideMap(there, Ask);
  }

  lemma TruthHasNoEmptyLevels(log: Log, k: nat)
    requires k <= |log|
    ensures NoEmptyLevels(Truth(log, k))
  {
    hide ApplyAll;
    StaysWithoutEmptyLevels(EMPTY, log[..k]);
  }

  /** A level the log leaves alone from `from` on is the same at `k` and at `final`. */
  lemma Untouched(log: Log, from: nat, k: nat, final: nat, s: Side, p: int)
    requires from <= k <= final <= |log| && Change(log[from..final], s, p).None?
    ensures QtyOf(SideMap(Truth(log, k), s), p) == QtyOf(SideMap(Truth(log, final), s), p)
  {
    hide ApplyAll, SideList;
    TruthHasNoEmptyLevels(log, k);
    assert log[..k] + log[k..final] == log[..final];
    ApplyAllConcat(EMPTY, log[..k], log[k..final]);
    QtyAfter(Truth(log, k), log[k..final], s, p);
    assert log[from..k] + log[k..final] == log[from..final];
    SideListConcat(log[from..k], log[k..final], s);
    LastQtyConcat(SideList(log[from..k], s), SideList(log[k..final], s), p);
  }

  // ----- safety: a synced book is the venue's book -----

  /** In sync means holding the venue's true book at the tracker's position. */
  ghost predicate Faithful(s: FeedState, log: Log, policy: Policy) {
    && s.tracker.policy == policy && s.tracker.haveSnapshot == s.synced
    && (s.synced ==> Position(s.tracker) <= |log| && s.book == Truth(log, Position(s.tracker)))
  }

  /** What the tracker applies is exactly what the book can take. */
  lemma AppliesInRange(log: Log, t: Tracker, ids: UpdateIds)
    requires RangeOk(log, t.policy, ids) && Position(t) <= |log| && t.haveSnapshot
    requires Classify(t, ids) == Apply
    ensures StartsAfter(t.policy, ids) <= Position(t) <= ids.final
  {
  }

  lemma FaithfulUpdate(s: FeedState, log: Log, policy: Policy, msg: Message)
    requires Faithful(s, log, policy) && HonestUpdate(log, policy, msg)
    ensures Faithful(TakeUpdate(s, msg, 0).state, log, policy)
  {
    hide Truth, ApplyAll, Covers, BookChecksum, RefusedCount, TrimmedCount, Follows, Stale;
    var ids := msg.ids.value;
    if s.synced && Classify(s.tracker, ids) == Apply {
      AppliesInRange(log, s.tracker, ids);
      Advance(log, StartsAfter(policy, ids), Position(s.tracker), ids.final, msg.levels);
    }
  }

  lemma FaithfulSnapshot(s: FeedState, log: Log, policy: Policy, msg: Message)
    requires Faithful(s, log, policy) && (msg.ok ==> HonestSnapshot(log, msg))
    ensures Faithful(TakeSnapshot(s, msg, 0).state, log, policy)
  {
    hide Truth, ApplyAll, BookChecksum, RefusedCount, TrimmedCount;
  }

  lemma FaithfulNext(s: FeedState, log: Log, policy: Policy, op: Op)
    requires Faithful(s, log, policy) && Honest(log, policy, op)
    ensures Faithful(FeedModel.Next(s, op, 0), log, policy)
  {
    hide Truth, TakeSnapshot, TakeUpdate, HonestUpdate, HonestSnapshot;
    if op.Frame? {
      var t := s.(stats := s.stats.(frames := s.stats.frames + 1));
      assert Faithful(t, log, policy);
      if op.msg.ok && op.msg.kind.SnapshotKind? { FaithfulSnapshot(t, log, policy, op.msg); }
      if op.msg.ok && op.msg.kind.UpdateKind? { FaithfulUpdate(t, log, policy, op.msg); }
    } else if op.OutOfBand? {
      FaithfulSnapshot(s, log, policy, op.msg);
    }
  }

  /** Snapshot reconciliation is correct: whatever the network drops, repeats or reorders, a feed
      that says it is in sync holds the venue's true book at the last id it applied, or at the
      snapshot's id before the first update. */
  lemma {:induction false} SyncedBookIsTrue(log: Log, policy: Policy, ops: seq<Op>)
    requires forall i :: 0 <= i < |ops| ==> Honest(log, policy, ops[i])
    ensures Faithful(FeedModel.Run(Initial(policy), ops, 0), log, policy)
  {
    hide FeedModel.Next, Honest, Truth;
    if ops != [] {
      var n := |ops| - 1;
      SyncedBookIsTrue(log, policy, ops[..n]);
      FaithfulNext(FeedModel.Run(Initial(policy), ops[..n], 0), log, policy, ops[n]);
    }
  }

  // ----- liveness: a stream without gaps -----

  /** Numbered updates that decoded and carry no checksum to fail. */
  predicate PlainUpdates(msgs: seq<Message>) {
    forall i :: 0 <= i < |msgs| ==>
      msgs[i].ok && msgs[i].kind.UpdateKind? && msgs[i].checksum.None? && msgs[i].ids.Some?
  }

  function IdsOf(msgs: seq<Message>): seq<UpdateIds>
    requires PlainUpdates(msgs)
  {
    seq(|msgs|, i requires 0 <= i < |msgs| => msgs[i].ids.value)
  }

  function Frames(msgs: seq<Message>): seq<Op> { seq(|msgs|, i requires 0 <= i < |msgs| => Frame(msgs[i])) }

  ghost predicate AllHonest(log: Log, policy: Policy, msgs: seq<Message>) {
    forall i :: 0 <= i < |msgs| ==> HonestUpdate(log, policy, msgs[i])
  }

  /** The feed at the stream's end when it reached back to the snapshot. */
  ghost predicate Converged(s: FeedState, end: FeedState, ids: seq<UpdateIds>) {
    var snap, heard := s.tracker.snapshotId, HeardBefore(ids, |ids|);
    && end.synced && end.stats.resyncs == s.stats.resyncs
    && Hears(end.tracker, snap, s.tracker.stats.gaps, heard)
    && Position(end.tracker) == Max(snap, heard)
  }

  /** From an honest snapshot, a contiguous stream - under any of the policies - ends in sync exactly
      when it reaches back to the snapshot.  Then no resync was demanded, and the book has followed the
      venue to the stream's end. */
  lemma {:induction false} GaplessStreamConverges(s: FeedState, log: Log, policy: Policy, msgs: seq<Message>)
    requires Faithful(s, log, policy) && s.synced && !s.tracker.straddled
    requires PlainUpdates(msgs) && Contiguous(policy, IdsOf(msgs)) && AllHonest(log, policy, msgs)
    ensures var end := FeedModel.Run(s, Frames(msgs), 0);
            && Faithful(end, log, policy)
            && (end.synced <==> ReachesBack(policy, s.tracker.snapshotId, IdsOf(msgs)))
            && (end.synced ==> Converged(s, end, IdsOf(msgs)))
  {
    hide FeedModel.Next, Truth, HonestUpdate, Hears, Converged, ReachesBack, Reached, Joins, Contiguous, Faithful;
    var ids, snap := IdsOf(msgs), s.tracker.snapshotId;
    if msgs == [] {
      NothingToReach(policy, snap, ids);
      ConvergedAtOnce(s, log, policy, ids);
    } else {
      var n := |msgs| - 1;
      var front := msgs[..n];
      assert IdsOf(front) == ids[..n] && Frames(msgs)[..n] == Frames(front);
      ContiguousFront(policy, ids);
      GaplessStreamConverges(s, log, policy, front);
      ReachesBackNext(policy, snap, ids);
      ChainedToHeard(policy, ids, n);
      var mid := FeedModel.Run(s, Frames(front), 0);
      if mid.synced {
        StreamStep(s, mid, log, policy, msgs[n], ids);
      } else {
        UnsyncedStep(mid, log, policy, msgs[n]);
      }
    }
  }

  lemma ConvergedAtOnce(s: FeedState, log: Log, policy: Policy, ids: seq<UpdateIds>)
    requires Faithful(s, log, policy) && s.synced && !s.tracker.straddled && ids == []
    ensures Converged(s, s, ids)
  {
  }

  /** A converged feed hears one more event of the stream. */
  lemma StreamStep(s: FeedState, mid: FeedState, log: Log, policy: Policy, msg: Message, ids: seq<UpdateIds>)
    requires ids != [] && PlainUpdates([msg]) && msg.ids == Some(ids[|ids| - 1])
    requires Faithful(s, log, policy) && s.synced && !s.tracker.straddled
    requires Faithful(mid, log, policy) && mid.synced && HonestUpdate(log, policy, msg)
    requires Converged(s, mid, ids[..|ids| - 1]) && Forward(policy, ids[|ids| - 1])
    requires var heard := HeardBefore(ids, |ids| - 1);
             heard >= 0 ==> heard < U64_MODULUS && Chained(policy, UpdateIds(0, heard, 0), ids[|ids| - 1])
    ensures var snap, end := s.tracker.snapshotId, FeedModel.Next(mid, Frame(msg), 0);
            && Faithful(end, log, policy)
            && (end.synced <==>
                Reached(policy, snap, HeardBefore(ids, |ids| - 1)) || Joins(policy, snap, ids[|ids| - 1]))
            && (end.synced ==> Converged(s, end, ids))
  {
    hide Truth, Covers, Loaded, BookChecksum, RefusedCount, TrimmedCount, Classify, OnUpdate, Follows, Stale,
        HonestUpdate;
    var n, e, snap := |ids| - 1, ids[|ids| - 1], s.tracker.snapshotId;
    var heard := HeardBefore(ids, n);
    assert heard == HeardBefore(ids[..n], n);
    assert [msg][0] == msg;
    FaithfulNext(mid, log, policy, Frame(msg));
    HearsNext(mid.tracker, snap, s.tracker.stats.gaps, heard, e);
    ResyncIsUnsynced(mid.tracker, e);
    var end := FeedModel.Next(mid, Frame(msg), 0);
    HonestIsNumbered(log, policy, msg);
    if end.synced { PositionHeard(mid.tracker, end.tracker, snap, s.tracker.stats.gaps, heard, e); }
  }

  lemma HonestIsNumbered(log: Log, policy: Policy, msg: Message)
    requires HonestUpdate(log, policy, msg)
    ensures policy.Spot? ==> msg.ids.value.first > 0
  {
  }

  /** The tracker's position, however far it heard. */
  lemma PositionHeard(t: Tracker, next: Tracker, snap: uint64, gaps: nat, heard: int, e: UpdateIds)
    requires Hears(t, snap, gaps, heard) && Hears(next, snap, gaps, e.final) && next.policy == t.policy
    requires Position(t) == Max(snap, heard) && (t.policy.Spot? ==> e.first > 0)
    requires if Reached(t.policy, snap, heard) then Chained(t.policy, UpdateIds(0, Position(t), 0), e)
             else Joins(t.policy, snap, e)
    ensures Position(next) == Max(snap, e.final)
  {
  }

  lemma ResyncIsUnsynced(t: Tracker, ids: UpdateIds)
    requires t.haveSnapshot
    ensures OnUpdate(t, ids).haveSnapshot <==> Classify(t, ids) != ResyncRequired
  {
  }

  lemma UnsyncedStep(s: FeedState, log: Log, policy: Policy, msg: Message)
    requires Faithful(s, log, policy) && !s.synced && PlainUpdates([msg])
    ensures var end := FeedModel.Next(s, Frame(msg), 0); Faithful(end, log, policy) && !end.synced
  {
    hide Truth;
    assert [msg][0] == msg;
  }

  // ----- the same with repeats -----

  function Redelivered(msgs: seq<Message>, order: seq<nat>): seq<Message>
    requires forall k :: 0 <= k < |order| ==> order[k] < |msgs|
  {
    seq(|order|, k requires 0 <= k < |order| => msgs[order[k]])
  }

  /** A feed on plain updates is in sync as long as its tracker would be, and then agrees with it. */
  lemma {:induction false} FeedFollowsTracker(s: FeedState, msgs: seq<Message>)
    requires PlainUpdates(msgs) && s.synced && s.tracker.haveSnapshot
    ensures var end, t := FeedModel.Run(s, Frames(msgs), 0), Sequencing.Run(s.tracker, Updates(IdsOf(msgs)));
            && end.synced == t.haveSnapshot
            && (end.synced ==> end.tracker == t && end.stats.resyncs == s.stats.resyncs)
  {
    hide FeedModel.Next, OnUpdate;
    if msgs != [] {
      var n := |msgs| - 1;
      var front := msgs[..n];
      assert Frames(msgs)[..n] == Frames(front) && Updates(IdsOf(msgs))[..n] == Updates(IdsOf(front));
      FeedFollowsTracker(s, front);
      var mid, t := FeedModel.Run(s, Frames(front), 0), Sequencing.Run(s.tracker, Updates(IdsOf(front)));
      PlainStep(mid, msgs[n]);
      if !mid.synced { StaysUnsynced(t, msgs[n].ids.value); }
    }
  }

  lemma PlainStep(s: FeedState, msg: Message)
    requires PlainUpdates([msg]) && msg.ids.Some? && (s.synced ==> s.tracker.haveSnapshot)
    ensures var end, t := FeedModel.Next(s, Frame(msg), 0), OnUpdate(s.tracker, msg.ids.value);
            && end.synced == (s.synced && t.haveSnapshot)
            && (end.synced ==> end.tracker == t && end.stats.resyncs == s.stats.resyncs)
  {
    hide Loaded, RefusedCount, TrimmedCount, Follows, Stale;
    assert [msg][0] == msg;
  }

  lemma {:induction false} HonestRunIsFaithful(s: FeedState, log: Log, policy: Policy, msgs: seq<Message>)
    requires Faithful(s, log, policy) && AllHonest(log, policy, msgs)
    requires forall i :: 0 <= i < |msgs| ==> msgs[i].kind.UpdateKind?
    ensures Faithful(FeedModel.Run(s, Frames(msgs), 0), log, policy)
  {
    hide FeedModel.Next, HonestUpdate, Truth, Faithful;
    if msgs != [] {
      var n := |msgs| - 1;
      assert Frames(msgs)[..n] == Frames(msgs[..n]);
      HonestRunIsFaithful(s, log, policy, msgs[..n]);
      FaithfulNext(FeedModel.Run(s, Frames(msgs[..n]), 0), log, policy, Frame(msgs[n]));
    }
  }

  /** A gapless stream converges however often its events are delivered again: the feed stays in sync
      exactly when the stream so far reaches back to the snapshot, never demands a resync, and holds the
      venue's book at the furthest id delivered. */
  lemma RepeatsStillConverge(s: FeedState, log: Log, policy: Policy, msgs: seq<Message>, order: seq<nat>)
    requires Faithful(s, log, policy) && s.synced && !s.tracker.straddled && |log| < U64_MODULUS - 1
    requires PlainUpdates(msgs) && Contiguous(policy, IdsOf(msgs)) && AllHonest(log, policy, msgs)
    requires Redelivers(order) && forall k :: 0 <= k < |order| ==> order[k] < |msgs|
    ensures Frontier(order) <= |msgs|
    ensures var end, n := FeedModel.Run(s, Frames(Redelivered(msgs, order)), 0), Frontier(order);
            && (end.synced <==> ReachesBack(policy, s.tracker.snapshotId, IdsOf(msgs)[..n]))
            && (end.synced ==>
                  && end.stats.resyncs == s.stats.resyncs
                  && Position(end.tracker) == Max(s.tracker.snapshotId, HeardBefore(IdsOf(msgs), n))
                  && end.book == Truth(log, Position(end.tracker)))
  {
    hide FeedModel.Next, Truth, HonestUpdate, ReachesBack, Joins, Contiguous, OnUpdate, Chained, Frontier;
    var ids, again := IdsOf(msgs), Redelivered(msgs, order);
    LogNeverWraps(log, policy, msgs);
    RepeatsDoNotMatter(s.tracker, ids, order);
    assert IdsOf(again) == Delivered(ids, order);
    FeedFollowsTracker(s, again);
    HonestRunIsFaithful(s, log, policy, again);
    var end, n := FeedModel.Run(s, Frames(again), 0), Frontier(order);
    if end.synced { HeardIsPosition(end.tracker, s.tracker.snapshotId, s.tracker.stats.gaps, HeardBefore(ids, n)); }
  }

  lemma HeardIsPosition(t: Tracker, snap: uint64, gaps: nat, heard: int)
    requires Hears(t, snap, gaps, heard) && snap < U64_MODULUS - 1
    ensures Position(t) == Max(snap, heard)
  {
  }

  lemma LogNeverWraps(log: Log, policy: Policy, msgs: seq<Message>)
    requires PlainUpdates(msgs) && AllHonest(log, policy, msgs) && |log| < U64_MODULUS - 1
    ensures NeverWraps(IdsOf(msgs))
  {
    hide Covers;
    forall i | 0 <= i < |msgs| ensures IdsOf(msgs)[i].final < U64_MODULUS - 1 {
      assert HonestUpdate(log, policy, msgs[i]);
    }
  }

  // ----- a depth-limited venue without numbers -----

  /** How many levels of a side a subscription covers, zero standing for all of them. */
  function ViewSize(f: map<int, int>, f': map<int, int>, depth: nat): nat {
    if depth == 0 then |f| + |f'| else depth
  }

  ghost predicate HonestSide(side: Side, f: Book, f': Book, depth: nat, msg: Message) {
    var m, m' := SideMap(f, side), SideMap(f', side);
    HonestDepthMessage(side, m, m', ViewSize(m, m', depth), SideList(msg.levels, side))
  }

  /** The venue's checksum is of its own book, however little of it the subscription covers. */
  predicate OwnChecksum(f: Book, msg: Message, sum: bv32) { msg.checksum.Some? ==> msg.checksum.value == sum }

  /** The venue's own book moves from `f` to `f'` and reports it for a top-`depth` subscription. */
  ghost predicate HonestView(f: Book, f': Book, depth: nat, msg: Message) {
    && msg.ok && msg.kind.UpdateKind? && msg.ids.None?
    && NoEmptyLevels(f) && NoEmptyLevels(f')
    && HonestSide(Bid, f, f', depth, msg) && HonestSide(Ask, f, f', depth, msg)
    && OwnChecksum(f', msg, BookChecksum(f'))
  }

  ghost predicate HonestViews(books: seq<Book>, depth: nat, msgs: seq<Message>) {
    |books| == |msgs| + 1 && forall i :: 0 <= i < |msgs| ==> HonestView(books[i], books[i + 1], depth, msgs[i])
  }

  /** The venue reports the top `depth` of its book `f`, and maybe more. */
  ghost predicate HonestViewSnapshot(f: Book, depth: nat, msg: Message) {
    && msg.ok && msg.kind.SnapshotKind? && msg.ids.None?
    && Loaded(EMPTY, msg, depth) == TrimBook(f, depth)
    && OwnChecksum(f, msg, BookChecksum(f))
  }

  /** What the subscription shows has the checksum the venue computed, if it sent one. */
  ghost predicate ViewChecks(f: Book, depth: nat, msg: Message) {
    msg.checksum.Some? ==> BookChecksum(TrimBook(f, depth)) == BookChecksum(f)
  }

  ghost predicate ViewsCheck(books: seq<Book>, depth: nat, msgs: seq<Message>)
    requires |books| == |msgs|
  {
    forall i :: 0 <= i < |msgs| ==> ViewChecks(books[i], depth, msgs[i])
  }

  ghost function SideView(side: Side, m: map<int, int>, depth: nat): map<int, int> {
    if depth == 0 then m else TopN(side, m, depth)
  }

  lemma SideMoves(side: Side, m: map<int, int>, m': map<int, int>, depth: nat, list: seq<Level>)
    requires NoZeros(m) && NoZeros(m') && HonestDepthMessage(side, m, m', ViewSize(m, m', depth), list)
    ensures SideView(side, ApplyList(SideView(side, m, depth), list), depth) == SideView(side, m', depth)
  {
    hide TopN, HonestDepthMessage, ApplyList;
    if depth == 0 {
      MessageRestoresAll(side, m, m', |m| + |m'|, list);
    } else {
      TrimRestoresView(side, m, m', depth, list);
    }
  }

  /** The message and the trim turn the old view into the new one. */
  lemma ViewMoves(f: Book, f': Book, depth: nat, msg: Message)
    requires HonestView(f, f', depth, msg)
    ensures Loaded(TrimBook(f, depth), msg, depth) == TrimBook(f', depth)
  {
    hide ApplyAll, TopN, HonestDepthMessage, SideList, ViewSize, ApplyList, BookChecksum, NoZeros;
    var b := TrimBook(f, depth);
    SideOfAll(b, msg.levels, Bid);
    SideOfAll(b, msg.levels, Ask);
    SideMoves(Bid, f.bids, f'.bids, depth, SideList(msg.levels, Bid));
    SideMoves(Ask, f.asks, f'.asks, depth, SideList(msg.levels, Ask));
  }

  /** In sync means showing the view of the venue's book, with no complaint since `from`. */
  ghost predicate Shows(s: FeedState, from: FeedState, f: Book, depth: nat) {
    s.synced ==>
      && s.book == TrimBook(f, depth)
      && s.stats.resyncs == from.stats.resyncs && s.stats.mismatches == from.stats.mismatches
  }

  lemma ViewStep(s: FeedState, from: FeedState, f: Book, f': Book, depth: nat, msg: Message)
    requires Shows(s, from, f, depth) && HonestView(f, f', depth, msg)
    ensures var end := FeedModel.Next(s, Frame(msg), depth);
            Shows(end, from, f', depth) && (end.synced <==> s.synced && ViewChecks(f', depth, msg))
  {
    hide Loaded, TrimBook, BookChecksum, HonestSide, RefusedCount, TrimmedCount;
    ViewMoves(f, f', depth, msg);
  }

  lemma SnapshotShows(s: FeedState, f: Book, depth: nat, msg: Message)
    requires HonestViewSnapshot(f, depth, msg)
    ensures var end := FeedModel.Next(s, Frame(msg), depth);
            Shows(end, s, f, depth) && (end.synced <==> ViewChecks(f, depth, msg))
  {
    hide Loaded, TrimBook, BookChecksum, RefusedCount, TrimmedCount;
  }

  /** From a snapshot on, listening in order to a venue that serves its top `depth` levels, a feed in
      any state comes into sync and stays there, always showing the venue's view, exactly while that
      view has the checksum the venue sent: then it never fails one and never asks for a resync. */
  lemma {:induction false} DepthFeedKeepsTheView(s: FeedState, books: seq<Book>, depth: nat, first: Message,
                                                 msgs: seq<Message>)
    requires HonestViews(books, depth, msgs) && HonestViewSnapshot(books[0], depth, first)
    ensures var end := FeedModel.Run(s, Frames([first] + msgs), depth);
            Shows(end, s, books[|msgs|], depth) && (end.synced <==> ViewsCheck(books, depth, [first] + msgs))
  {
    hide FeedModel.Next, TrimBook, HonestView, HonestViewSnapshot, Shows, ViewChecks;
    var all := [first] + msgs;
    var n := |msgs|;
    assert Frames(all)[..n] == Frames(all[..n]);
    if n == 0 {
      assert Frames(all)[..0] == [];
      SnapshotShows(s, books[0], depth, first);
    } else {
      var front := msgs[..n - 1];
      assert all[..n] == [first] + front;
      assert HonestViews(books[..n], depth, front);
      DepthFeedKeepsTheView(s, books[..n], depth, first, front);
      ViewStep(FeedModel.Run(s, Frames(all[..n]), depth), s, books[n - 1], books[n], depth, msgs[n - 1]);
      ChecksNext(books, depth, all);
    }
  }

  lemma ChecksNext(books: seq<Book>, depth: nat, msgs: seq<Message>)
    requires |books| == |msgs| > 0
    ensures var n := |msgs| - 1;
            ViewsCheck(books, depth, msgs) <==>
              ViewsCheck(books[..n], depth, msgs[..n]) && ViewChecks(books[n], depth, msgs[n])
  {
    hide ViewChecks;
    var n := |msgs| - 1;
    if ViewsCheck(books, depth, msgs) {
      forall i | 0 <= i < n ensures ViewChecks(books[..n][i], depth, msgs[..n][i]) {
        assert ViewChecks(books[i], depth, msgs[i]);
      }
    }
    if ViewsCheck(books[..n], depth, msgs[..n]) && ViewChecks(books[n], depth, msgs[n]) {
      forall i | 0 <= i <= n ensures ViewChecks(books[i], depth, msgs[i]) {
        if i < n { assert ViewChecks(books[..n][i], depth, msgs[..n][i]); }
      }
    }
  }

  predicate Fits(f: Book, depth: nat) { |f.bids| <= depth && |f.asks| <= depth }

  /** Every view checks on a subscription to all levels, to ten or more, to all the venue has, or
      where no checksums are sent. */
  lemma ViewsCheckWhen(books: seq<Book>, depth: nat, msgs: seq<Message>)
    requires |books| == |msgs|
    requires depth == 0 || depth >= CHECKSUM_DEPTH ||
             forall i :: 0 <= i < |msgs| ==> Fits(books[i], depth) || msgs[i].checksum.None?
    ensures ViewsCheck(books, depth, msgs)
  {
    hide TopN, Checksum;
    forall i | 0 <= i < |msgs| ensures ViewChecks(books[i], depth, msgs[i]) {
      var f := books[i];
      if depth >= CHECKSUM_DEPTH {
        ChecksumIgnoresDepth(f.bids, f.asks, depth);
      } else if depth > 0 && Fits(f, depth) {
        TopNIsAll(Bid, f.bids, depth);
        TopNIsAll(Ask, f.asks, depth);
      }
    }
  }

  /** The venue's book of one ask at 1 and one at 2, on a subscription to one level. */
  const SHALLOW: Book := Book(map[], map[1 := 1, 2 := 1])

  /** Below ten levels an honest venue can be refused: a subscription to one level of two never comes
      into sync with the checksum of both. */
  lemma ShallowViewIsRefused(s: FeedState)
    ensures var msg := Message(true, SnapshotKind, [LevelUpdate(Ask, 1, 1)], None, Some(BookChecksum(SHALLOW)), 0);
            HonestViewSnapshot(SHALLOW, 1, msg) && !FeedModel.Next(s, Frame(msg), 1).synced
  {
    hide TopN, Checksum;
    var msg := Message(true, SnapshotKind, [LevelUpdate(Ask, 1, 1)], None, Some(BookChecksum(SHALLOW)), 0);
    ShallowChecksumDiffers();
    assert msg.levels[..0] == [];
    assert ApplyAll(EMPTY, msg.levels) == Book(map[], map[1 := 1]);
    TopNIsAll(Bid, map[], 1);
    TopNIsAll(Ask, map[1 := 1], 1);
    SnapshotShows(s, SHALLOW, 1, msg);
  }
}
