/** The feed as a state machine over decoded messages, on plain values. */
module FeedModel {
  import opened CoreTypes
  import opened PriceWindow
  import opened Depth
  import opened Sequencing
  import opened Checksums

  // ----- books and level updates -----

  datatype Book = Book(bids: map<int, int>, asks: map<int, int>)

  const EMPTY: Book := Book(map[], map[])

  function SideMap(b: Book, s: Side): map<int, int> { if s.Bid? then b.bids else b.asks }

  function With(b: Book, s: Side, m: map<int, int>): Book { if s.Bid? then b.(bids := m) else b.(asks := m) }

  function Size(b: Book): nat { |b.bids| + |b.asks| }

  datatype LevelUpdate = LevelUpdate(side: Side, price: int64, qty: int64)

  /** The book takes no negative price or quantity. */
  predicate Refused(u: LevelUpdate) { u.price < 0 || u.qty < 0 }

  function ApplyOne(b: Book, u: LevelUpdate): Book {
    if Refused(u) then b else With(b, u.side, ApplyLevel(SideMap(b, u.side), u.price, u.qty))
  }

  function ApplyAll(b: Book, us: seq<LevelUpdate>): Book {
    if us == [] then b else ApplyOne(ApplyAll(b, us[..|us| - 1]), us[|us| - 1])
  }

  function RefusedCount(us: seq<LevelUpdate>): nat {
    if us == [] then 0 else RefusedCount(us[..|us| - 1]) + (if Refused(us[|us| - 1]) then 1 else 0)
  }

  ghost function TrimBook(b: Book, depth: nat): Book {
    if depth == 0 then b else Book(TopN(Bid, b.bids, depth), TopN(Ask, b.asks, depth))
  }

  ghost function BookChecksum(b: Book): bv32 { Checksum(b.bids, b.asks) }

  // ----- messages -----

  datatype Kind = NotBook | VenueError | SnapshotKind | UpdateKind

  /** What a decoder makes of one frame. */
  datatype Message = Message(
    ok: bool, kind: Kind, levels: seq<LevelUpdate>, ids: Option<UpdateIds>, checksum: Option<bv32>, ts: int)

  datatype Status = Applied | Ignored | NeedsSnapshot | Rejected

  datatype FeedStats = FeedStats(
    frames: nat, applied: nat, ignored: nat, rejected: nat, resyncs: nat, snapshots: nat,
    verified: nat, mismatches: nat, venueErrors: nat, trimmed: nat, refused: nat)

  const NO_STATS: FeedStats := FeedStats(0, 0, 0, 0, 0, 0, 0, 0, 0, 0, 0)

  /** `bookTs` is the book's own timestamp, which routing asks for; `lastTs` is the feed's. */
  datatype FeedState = FeedState(
    book: Book, bookTs: int, tracker: Tracker, synced: bool, lastTs: int, stats: FeedStats)

  function Initial(policy: Policy): FeedState { FeedState(EMPTY, 0, Fresh(policy), false, 0, NO_STATS) }

  datatype Reply = Reply(state: FeedState, status: Status)

  // ----- what each message does -----

  function Desync(s: FeedState): FeedState {
    s.(synced := false, tracker := Invalidate(s.tracker), stats := s.stats.(resyncs := s.stats.resyncs + 1))
  }

  /** The levels of a message on top of `b`, trimmed to the subscription. */
  ghost function Loaded(b: Book, msg: Message, depth: nat): Book { TrimBook(ApplyAll(b, msg.levels), depth) }

  ghost function LoadState(s: FeedState, b: Book, msg: Message, depth: nat): FeedState {
    s.(book := Loaded(b, msg, depth), bookTs := msg.ts, lastTs := msg.ts,
       stats := s.stats.(applied := s.stats.applied + 1,
                         refused := s.stats.refused + RefusedCount(msg.levels),
                         trimmed := s.stats.trimmed + TrimmedCount(b, msg, depth)))
  }

  ghost function TrimmedCount(b: Book, msg: Message, depth: nat): nat {
    Max(0, Size(ApplyAll(b, msg.levels)) - Size(Loaded(b, msg, depth)))
  }

  /** The last step: a checksum, when there is one, must match. */
  ghost function Verify(s: FeedState, msg: Message): Reply {
    var checked := s.(stats := s.stats.(verified := s.stats.verified + 1));
    if msg.checksum.None? then Reply(s, Applied)
    else if BookChecksum(s.book) == msg.checksum.value then Reply(checked, Applied)
    else Reply(Desync(checked.(stats := checked.stats.(mismatches := checked.stats.mismatches + 1))), NeedsSnapshot)
  }

  function Reject(s: FeedState): Reply {
    Reply(s.(stats := s.stats.(rejected := s.stats.rejected + 1)), Rejected)
  }

  function Ignore(s: FeedState): Reply {
    Reply(s.(stats := s.stats.(ignored := s.stats.ignored + 1)), Ignored)
  }

  ghost function Replaced(s: FeedState, msg: Message, depth: nat): FeedState {
    var loaded := LoadState(s, EMPTY, msg, depth);
    var tracker := if msg.ids.Some? then OnSnapshot(s.tracker, msg.ids.value.final) else s.tracker;
    loaded.(tracker := tracker, synced := true, stats := loaded.stats.(snapshots := loaded.stats.snapshots + 1))
  }

  ghost function TakeSnapshot(s: FeedState, msg: Message, depth: nat): Reply {
    if !msg.ok then Reject(s) else Verify(Replaced(s, msg, depth), msg)
  }

  ghost function TakeUpdate(s: FeedState, msg: Message, depth: nat): Reply {
    if !s.synced then Reply(s, NeedsSnapshot)
    else
      var t := if msg.ids.Some? then s.(tracker := OnUpdate(s.tracker, msg.ids.value)) else s;
      var action := if msg.ids.Some? then Classify(s.tracker, msg.ids.value) else Apply;
      match action
      case DiscardStale => Ignore(t)
      case ResyncRequired => Reply(Desync(t), NeedsSnapshot)
      case Apply => Verify(LoadState(t, t.book, msg, depth), msg)
  }

  ghost function TakeFrame(s: FeedState, msg: Message, depth: nat): Reply {
    var t := s.(stats := s.stats.(frames := s.stats.frames + 1));
    if !msg.ok then Reject(t)
    else
      match msg.kind
      case NotBook => Ignore(t)
      case VenueError =>
        Reject(t.(stats := t.stats.(venueErrors := t.stats.venueErrors + 1)))
      case SnapshotKind => TakeSnapshot(t, msg, depth)
      case UpdateKind => TakeUpdate(t, msg, depth)
  }

  predicate IsStale(s: FeedState, now: int, maxGap: int) {
    s.synced && s.lastTs != 0 && maxGap > 0 && now - s.lastTs > maxGap
  }

  // ----- runs -----

  datatype Op =
    | Frame(msg: Message)
    | OutOfBand(msg: Message)
    | Reconnect
    | Staleness(now: int, maxGap: int)

  ghost function Next(s: FeedState, op: Op, depth: nat): FeedState {
    match op
    case Frame(msg) => TakeFrame(s, msg, depth).state
    case OutOfBand(msg) => TakeSnapshot(s, msg, depth).state
    case Reconnect => Desync(s)
    case Staleness(now, maxGap) => if IsStale(s, now, maxGap) then Desync(s) else s
  }

  ghost function Run(s: FeedState, ops: seq<Op>, depth: nat): FeedState {
    if ops == [] then s else Next(Run(s, ops[..|ops| - 1], depth), ops[|ops| - 1], depth)
  }

  // ----- what counts as hearing from the venue -----

  /** A frame that arrives in time saves a feed from being declared stale exactly when it is applied,
      or ends sync by itself: ignored and rejected frames do not count. */
  lemma FrameRefreshesIff(s: FeedState, msg: Message, now: int, maxGap: int, depth: nat)
    requires IsStale(s, now, maxGap) && now - msg.ts <= maxGap
    ensures var t := TakeFrame(s, msg, depth).state;
            IsStale(t, now, maxGap) <==> t.synced && t.stats.applied == s.stats.applied
  {
    hide Loaded, BookChecksum, RefusedCount, TrimmedCount, OnUpdate, Classify;
  }

  /** However many heartbeats arrive, a feed that is stale stays so. */
  lemma {:induction false} HeartbeatsDoNotCount(s: FeedState, beats: seq<Op>, now: int, maxGap: int, depth: nat)
    requires IsStale(s, now, maxGap)
    requires forall i :: 0 <= i < |beats| ==> beats[i].Frame? && beats[i].msg.ok && beats[i].msg.kind.NotBook?
    ensures IsStale(Run(s, beats, depth), now, maxGap)
  {
    if beats != [] { HeartbeatsDoNotCount(s, beats[..|beats| - 1], now, maxGap, depth); }
  }

  // ----- a known-wrong book is never updated -----

  /** A message that replaces the book: a snapshot that decoded. */
  predicate Replaces(op: Op) {
    (op.Frame? && op.msg.ok && op.msg.kind.SnapshotKind?) || (op.OutOfBand? && op.msg.ok)
  }

  /** Out of sync, nothing changes the book but a snapshot, which replaces it outright. */
  lemma OnlySnapshotsRebuild(s: FeedState, op: Op, depth: nat)
    requires !s.synced
    ensures Next(s, op, depth).book == if Replaces(op) then Loaded(EMPTY, op.msg, depth) else s.book
    ensures Next(s, op, depth).synced ==> Replaces(op)
  {
    hide Loaded, BookChecksum, RefusedCount, TrimmedCount, OnUpdate, Classify;
  }

  lemma {:induction false} WrongBookStaysPut(s: FeedState, ops: seq<Op>, depth: nat)
    requires !s.synced && forall i :: 0 <= i < |ops| ==> !Replaces(ops[i])
    ensures Run(s, ops, depth).book == s.book && !Run(s, ops, depth).synced
  {
    hide Next;
    if ops != [] {
      var n := |ops| - 1;
      WrongBookStaysPut(s, ops[..n], depth);
      OnlySnapshotsRebuild(Run(s, ops[..n], depth), ops[n], depth);
    }
  }

  /** A snapshot leaves a book that depends on it alone, not on anything before. */
  lemma SnapshotForgets(s: FeedState, t: FeedState, op: Op, depth: nat)
    requires Replaces(op)
    ensures Next(s, op, depth).book == Next(t, op, depth).book == Loaded(EMPTY, op.msg, depth)
    ensures Next(s, op, depth).synced == Next(t, op, depth).synced
  {
    hide Loaded, BookChecksum, RefusedCount, TrimmedCount, OnUpdate, Classify;
    SnapshotOutcome(s, op, depth);
    SnapshotOutcome(t, op, depth);
  }

  lemma SnapshotOutcome(s: FeedState, op: Op, depth: nat)
    requires Replaces(op)
    ensures var book := Loaded(EMPTY, op.msg, depth);
            && Next(s, op, depth).book == book
            && Next(s, op, depth).synced == (op.msg.checksum.Some? ==> BookChecksum(book) == op.msg.checksum.value)
  {
    hide Loaded, BookChecksum, RefusedCount, TrimmedCount, OnUpdate, Classify;
  }

  predicate HasIds(op: Op) { op.Frame? || op.OutOfBand? ==> op.msg.ids.Some? }

  /** The tracker is in sync only while the feed is; the two agree when every message is numbered. */
  lemma {:induction false} TrackerFollowsFeed(policy: Policy, ops: seq<Op>, depth: nat)
    ensures var s := Run(Initial(policy), ops, depth);
            s.tracker.haveSnapshot ==> s.synced
    ensures var s := Run(Initial(policy), ops, depth);
            (forall i :: 0 <= i < |ops| ==> HasIds(ops[i])) ==> s.tracker.haveSnapshot == s.synced
  {
    hide Loaded, BookChecksum, RefusedCount, TrimmedCount;
    if ops != [] { TrackerFollowsFeed(policy, ops[..|ops| - 1], depth); }
  }

  /** What a frame's status promises about the feed it leaves. */
  lemma StatusIsHonest(s: FeedState, msg: Message, depth: nat)
    ensures var r := TakeFrame(s, msg, depth);
            && (r.status.Applied? ==> r.state.synced && r.state.lastTs == msg.ts && r.state.bookTs == msg.ts)
            && (r.status.Applied? && msg.checksum.Some? ==> BookChecksum(r.state.book) == msg.checksum.value)
            && (r.status.NeedsSnapshot? ==> !r.state.synced)
            && (r.status.Ignored? || r.status.Rejected? ==> r.state.book == s.book && r.state.synced == s.synced)
  {
    hide Loaded, BookChecksum;
  }

  /** A frame that carries book data. */
  predicate CarriesBook(msg: Message) { msg.ok && (msg.kind.SnapshotKind? || msg.kind.UpdateKind?) }

  /** Which status answers which frame.  The caller is told to fetch a snapshot exactly when book data
      leaves the feed out of sync; rejected is what did not decode or is the venue's own error; ignored
      is what is no book data, or wholly behind the tracker. */
  lemma StatusIff(s: FeedState, msg: Message, depth: nat)
    ensures var r := TakeFrame(s, msg, depth);
            var behind := msg.ids.Some? && Classify(s.tracker, msg.ids.value) == DiscardStale;
            && (r.status.Rejected? <==> !msg.ok || msg.kind.VenueError?)
            && (r.status.Ignored? <==>
                  msg.ok && (msg.kind.NotBook? || (msg.kind.UpdateKind? && s.synced && behind)))
            && (r.status.NeedsSnapshot? <==> CarriesBook(msg) && !r.state.synced)
            && (r.status.Applied? <==>
                  CarriesBook(msg) && r.state.synced && !(msg.kind.UpdateKind? && behind))
  {
    hide Loaded, BookChecksum, RefusedCount, TrimmedCount, Follows, Stale, ApplyAll;
  }

  /** Each frame is counted once, under the status it was answered with; a resync is counted when
      sync is lost, or refused to a snapshot. */
  lemma StatusIsCounted(s: FeedState, msg: Message, depth: nat)
    ensures var r := TakeFrame(s, msg, depth);
            var a, b := s.stats, r.state.stats;
            var wrong := b.mismatches - a.mismatches;
            && b.frames == a.frames + 1
            && b.rejected - a.rejected == (if r.status.Rejected? then 1 else 0)
            && b.venueErrors - a.venueErrors == (if msg.ok && msg.kind.VenueError? then 1 else 0)
            && b.ignored - a.ignored == (if r.status.Ignored? then 1 else 0)
            && b.applied - a.applied == (if r.status.Applied? then 1 else wrong)
            && b.snapshots - a.snapshots == (if msg.ok && msg.kind.SnapshotKind? then 1 else 0)
            && b.resyncs - a.resyncs ==
                 (if r.status.NeedsSnapshot? && (s.synced || msg.kind.SnapshotKind?) then 1 else 0)
            && b.verified - a.verified == (if b.applied > a.applied && msg.checksum.Some? then 1 else 0)
            && (wrong == 1 <==> b.verified > a.verified && r.status.NeedsSnapshot?) && 0 <= wrong <= 1
  {
    hide Loaded, BookChecksum, RefusedCount, TrimmedCount, Follows, Stale, ApplyAll;
  }

  /** The levels a message had refused and trimmed are counted when it is applied, and only then; a
      snapshot is trimmed from nothing and an update from the book there was. */
  lemma LevelsAreCounted(s: FeedState, msg: Message, depth: nat)
    ensures var a, b := s.stats, TakeFrame(s, msg, depth).state.stats;
            var taken := b.applied > a.applied;
            && b.refused - a.refused == (if taken then RefusedCount(msg.levels) else 0)
            && b.trimmed - a.trimmed ==
                 if !taken then 0
                 else TrimmedCount(if msg.kind.SnapshotKind? then EMPTY else s.book, msg, depth)
  {
    hide Loaded, BookChecksum, RefusedCount, TrimmedCount, Follows, Stale, ApplyAll;
  }

  /** A lost connection ends sync and is counted; a silence does so exactly when it is too long.  The book
      stays for whoever reads it. */
  lemma OutagesEndSync(s: FeedState, now: int, maxGap: int, depth: nat)
    ensures var t := Next(s, Reconnect, depth);
            !t.synced && !t.tracker.haveSnapshot && t.stats.resyncs == s.stats.resyncs + 1 && t.book == s.book
    ensures var t := Next(s, Staleness(now, maxGap), depth);
            && (t == s <==> !IsStale(s, now, maxGap))
            && (t != s ==> t == Next(s, Reconnect, depth))
  {
  }

  /** Refused levels are exactly the negative ones. */
  lemma {:induction false} RefusedAreNegative(us: seq<LevelUpdate>)
    ensures RefusedCount(us) == |Negatives(us)|
  {
    if us != [] {
      var n := |us| - 1;
      RefusedAreNegative(us[..n]);
      var before := Negatives(us[..n]);
      assert n !in before;
      assert Negatives(us) == if us[n].price < 0 || us[n].qty < 0 then before + {n} else before;
    }
  }

  ghost function Negatives(us: seq<LevelUpdate>): set<int> {
    set i | 0 <= i < |us| && (us[i].price < 0 || us[i].qty < 0)
  }

  /** Trimmed levels are exactly those beyond the depth, side by side. */
  lemma TrimmedAreBeyondDepth(b: Book, msg: Message, depth: nat)
    ensures var full := ApplyAll(b, msg.levels);
            TrimmedCount(b, msg, depth) ==
              if depth == 0 then 0
              else (if |full.bids| > depth then |full.bids| - depth else 0)
                   + (if |full.asks| > depth then |full.asks| - depth else 0)
  {
    hide ApplyAll, TopN;
    var full := ApplyAll(b, msg.levels);
    TopNIsPrefix(Bid, full.bids, depth);
    TopNIsPrefix(Ask, full.asks, depth);
  }

  /** Silence is judged to the nanosecond: the maximum gap itself is not stale, one more is, and so is
      everything later. */
  lemma StaleJustBeyondTheGap(s: FeedState, maxGap: int, now: int)
    requires s.synced && s.lastTs != 0 && maxGap > 0
    ensures !IsStale(s, s.lastTs + maxGap, maxGap) && IsStale(s, s.lastTs + maxGap + 1, maxGap)
    ensures now > s.lastTs + maxGap ==> IsStale(s, now, maxGap)
  {
  }

  /** A book that fails its checksum is out of sync at once - though its message was counted as
      applied before it was verified. */
  lemma MismatchDesyncs(s: FeedState, msg: Message, depth: nat)
    requires msg.ok && msg.checksum.Some?
    requires msg.kind.SnapshotKind?
        || (msg.kind.UpdateKind? && s.synced && (msg.ids.Some? ==> Classify(s.tracker, msg.ids.value) == Apply))
    requires BookChecksum(Loaded(if msg.kind.SnapshotKind? then EMPTY else s.book, msg, depth)) != msg.checksum.value
    ensures var r := TakeFrame(s, msg, depth);
            r.status == NeedsSnapshot && !r.state.synced && !r.state.tracker.haveSnapshot
            && r.state.stats.applied == s.stats.applied + 1 && r.state.stats.mismatches == s.stats.mismatches + 1
  {
    hide Loaded, BookChecksum, RefusedCount, TrimmedCount, Follows, Stale;
  }

  /** With a depth limit, no state ever holds more than that many levels a side. */
  lemma {:induction false} DepthIsKept(policy: Policy, ops: seq<Op>, depth: nat)
    requires depth > 0
    ensures var b := Run(Initial(policy), ops, depth).book;
            |b.bids| <= depth && |b.asks| <= depth
  {
    hide Next;
    if ops != [] {
      DepthIsKept(policy, ops[..|ops| - 1], depth);
      DepthIsKeptOnce(Run(Initial(policy), ops[..|ops| - 1], depth), ops[|ops| - 1], depth);
    }
  }

  lemma DepthIsKeptOnce(s: FeedState, op: Op, depth: nat)
    requires depth > 0 && |s.book.bids| <= depth && |s.book.asks| <= depth
    ensures |Next(s, op, depth).book.bids| <= depth && |Next(s, op, depth).book.asks| <= depth
  {
    hide ApplyAll, TrimBook, Next;
    BookAfter(s, op, depth);
    if op.Frame? || op.OutOfBand? {
      TrimmedSize(ApplyAll(EMPTY, op.msg.levels), depth);
      TrimmedSize(ApplyAll(s.book, op.msg.levels), depth);
    }
  }

  /** The only books an operation can leave. */
  lemma BookAfter(s: FeedState, op: Op, depth: nat)
    ensures var b := Next(s, op, depth).book;
            || b == s.book
            || ((op.Frame? || op.OutOfBand?)
                && (b == Loaded(EMPTY, op.msg, depth) || b == Loaded(s.book, op.msg, depth)))
  {
    hide Loaded, BookChecksum, RefusedCount, TrimmedCount, OnUpdate, Classify;
  }

  lemma TrimmedSize(b: Book, depth: nat)
    requires depth > 0
    ensures |TrimBook(b, depth).bids| <= depth && |TrimBook(b, depth).asks| <= depth
    ensures Size(TrimBook(b, depth)) <= Size(b)
  {
    hide TopN;
    TopNIsPrefix(Bid, b.bids, depth);
    TopNIsPrefix(Ask, b.asks, depth);
  }

  /** In every run the book is as fresh as the feed that keeps it, so judging one judges both. */
  lemma {:induction false} BookIsAsFreshAsFeed(policy: Policy, ops: seq<Op>, depth: nat)
    ensures var s := Run(Initial(policy), ops, depth); s.bookTs == s.lastTs
  {
    hide Loaded, BookChecksum, RefusedCount, TrimmedCount, OnUpdate, Classify;
    if ops != [] { BookIsAsFreshAsFeed(policy, ops[..|ops| - 1], depth); }
  }

  /** Every verdict on a checksum is counted, and each mismatch cost a resync. */
  ghost predicate Accounted(t: FeedStats) {
    t.mismatches <= t.verified && t.mismatches <= t.resyncs && t.snapshots <= t.applied && t.venueErrors <= t.rejected
  }

  lemma {:induction false} MismatchesAreResyncs(policy: Policy, ops: seq<Op>, depth: nat)
    ensures Accounted(Run(Initial(policy), ops, depth).stats)
  {
    hide Next;
    if ops != [] {
      MismatchesAreResyncs(policy, ops[..|ops| - 1], depth);
      AccountedNext(Run(Initial(policy), ops[..|ops| - 1], depth), ops[|ops| - 1], depth);
    }
  }

  lemma AccountedNext(s: FeedState, op: Op, depth: nat)
    requires Accounted(s.stats)
    ensures Accounted(Next(s, op, depth).stats)
  {
    hide TakeSnapshot, TakeUpdate;
    match op
    case Frame(msg) =>
      var t := s.(stats := s.stats.(frames := s.stats.frames + 1));
      AccountedSnapshot(t, msg, depth);
      AccountedUpdate(t, msg, depth);
    case OutOfBand(msg) => AccountedSnapshot(s, msg, depth);
    case _ =>
  }

  lemma AccountedSnapshot(s: FeedState, msg: Message, depth: nat)
    requires Accounted(s.stats)
    ensures Accounted(TakeSnapshot(s, msg, depth).state.stats)
  {
    hide Loaded, BookChecksum, RefusedCount, TrimmedCount;
  }

  lemma AccountedUpdate(s: FeedState, msg: Message, depth: nat)
    requires Accounted(s.stats)
    ensures Accounted(TakeUpdate(s, msg, depth).state.stats)
  {
    hide Loaded, BookChecksum, RefusedCount, TrimmedCount, OnUpdate, Classify;
  }

  /** Where a snapshot leaves the tracker: a numbered one moves it to its own id, an unnumbered one
      leaves it as it was. */
  lemma SnapshotAnchors(s: FeedState, op: Op, depth: nat)
    requires Replaces(op) && Next(s, op, depth).synced
    ensures var t := Next(s, op, depth).tracker;
            && (op.msg.ids.Some? ==> t.haveSnapshot && !t.straddled && Position(t) == op.msg.ids.value.final)
            && (t == s.tracker <==> op.msg.ids.None?)
  {
    hide Loaded, BookChecksum, RefusedCount, TrimmedCount;
  }

  /** `ids` would be applied to the book of `after` by a tracker that still stands where it did before. */
  ghost predicate AppliesToOlderPosition(s: FeedState, after: FeedState, ids: UpdateIds) {
    after.tracker == s.tracker && Classify(after.tracker, ids) == Apply
  }

  /** So a snapshot's book can take updates meant for an older one exactly when the snapshot is
      unnumbered and the tracker was in sync before it, whatever the policy - one counter standing at
      the last id apart, which nothing can follow. */
  lemma OlderPositionIsUsed(s: FeedState, op: Op, depth: nat)
    requires Replaces(op) && Next(s, op, depth).synced
    ensures (exists ids :: AppliesToOlderPosition(s, Next(s, op, depth), ids)) <==>
              && op.msg.ids.None? && s.tracker.haveSnapshot
              && !(s.tracker.policy.Strict? && !s.tracker.straddled && s.tracker.snapshotId == U64_MODULUS - 1)
    ensures op.msg.ids.None? && !s.tracker.haveSnapshot ==>
              forall ids :: Classify(Next(s, op, depth).tracker, ids) == ResyncRequired
  {
    hide Next, Follows, Stale;
    SnapshotAnchors(s, op, depth);
    SomethingFollows(s.tracker);
    if ids :| Classify(s.tracker, ids) == Apply {
      assert op.msg.ids.None? ==> AppliesToOlderPosition(s, Next(s, op, depth), ids);
    }
  }

  /** Why every message must carry ids: after a numbered snapshot, an unnumbered one replaces the
      book but leaves the tracker at the older position, so an update that continues the older
      snapshot is applied to the newer one. */
  lemma UnnumberedSnapshotKeepsOldPosition(older: Message, newer: Message, update: Message)
    requires older.ok && older.kind.SnapshotKind? && older.ids == Some(UpdateIds(7, 7, 0)) && older.checksum.None?
    requires newer.ok && newer.kind.SnapshotKind? && newer.ids.None? && newer.checksum.None?
    requires update.ok && update.kind.UpdateKind? && update.ids == Some(UpdateIds(8, 8, 7)) && update.checksum.None?
    ensures var s := Run(Initial(Spot), [Frame(older), Frame(newer)], 0);
            s.book == ApplyAll(EMPTY, newer.levels)
            && TakeFrame(s, update, 0).status == Applied
            && TakeFrame(s, update, 0).state.book == ApplyAll(s.book, update.levels)
  {
    hide ApplyAll, RefusedCount, TrimmedCount;
    var a, b := [Frame(older)], [Frame(older), Frame(newer)];
    assert a[..0] == [] && b[..1] == a;
    assert Run(Initial(Spot), a, 0) == Next(Initial(Spot), Frame(older), 0);
  }
}
