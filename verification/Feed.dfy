/** One instrument on one venue, from raw frames to a book that says whether it may be read. */
module Feeds {
  import opened CoreTypes
  import opened Depth
  import opened Sides
  import opened L2
  import opened Crc
  import opened Checksums
  import opened Sequencing
  import opened FeedModel

  class Feed {
    /** The decoder is any function from frames to messages. */
    const decode: string -> Message
    const book: L2Book
    const tracker: SequenceTracker
    const table: Crc32Table
    const depth: nat
    var stats: FeedStats
    var lastTs: int
    var synced: bool

    ghost function Repr(): set<object> { {this, tracker} + book.Repr() }

    ghost predicate Valid()
      reads Repr(), table.entries
    {
      book.Valid() && table.Valid()
    }

    ghost function BookState(): Book
      reads book.Repr()
    {
      Book(book.Levels(Bid), book.Levels(Ask))
    }

    ghost function State(): FeedState
      reads Repr()
    {
      FeedState(BookState(), book.lastUpdate, tracker.State(), synced, lastTs, stats)
    }

    constructor (decode: string -> Message, policy: Policy, depth: nat, slots: nat, table: Crc32Table)
      requires table.Valid() && slots <= INT64_MAX
      ensures Valid() && State() == Initial(policy) && this.depth == depth && this.decode == decode
    {
      hide L2Book.Valid;
      this.decode := decode;
      this.book := new L2Book(slots);
      this.tracker := new SequenceTracker(policy);
      this.table := table;
      this.depth := depth;
      stats := NO_STATS;
      lastTs := 0;
      synced := false;
    }

    /** Apply a message's levels, counting those the book refuses. */
    method ApplyLevels(us: seq<LevelUpdate>)
      requires Valid()
      modifies book.Repr(), this`stats
      ensures Valid()
      ensures BookState() == ApplyAll(old(BookState()), us) && book.lastUpdate == old(book.lastUpdate)
      ensures stats == old(stats).(refused := old(stats).refused + RefusedCount(us))
    {
      hide L2Book.Valid, Crc32Table.Valid;
      ghost var start, before := BookState(), stats;
      assert us[..0] == [];
      for i := 0 to |us|
        invariant Valid()
        invariant BookState() == ApplyAll(start, us[..i]) && book.lastUpdate == old(book.lastUpdate)
        invariant stats == before.(refused := before.refused + RefusedCount(us[..i]))
      {
        assert us[..i + 1][..i] == us[..i];
        var ok := book.Apply(us[i].side, us[i].price, us[i].qty);
        assert us[i].side == Bid || us[i].side == Ask;
        if !ok {
          stats := stats.(refused := stats.refused + 1);
        }
      }
      assert us[..|us|] == us;
    }

    /** Drop what fell outside the subscription, both sides. */
    method TrimBoth() returns (removed: nat)
      requires Valid()
      modifies book.Repr()
      ensures Valid()
      ensures BookState() == TrimBook(old(BookState()), depth) && book.lastUpdate == old(book.lastUpdate)
      ensures removed == Max(0, Size(old(BookState())) - Size(BookState()))
    {
      hide L2Book.Valid, Crc32Table.Valid, TopN;
      if depth > 0 { TrimmedSize(BookState(), depth); }
      var fromBids := book.Trim(Bid, depth);
      var fromAsks := book.Trim(Ask, depth);
      removed := fromBids + fromAsks;
    }

    /** The book and the feed carry the time of the last message applied. */
    method Stamp(ts: int)
      requires Valid()
      modifies book`lastUpdate, this`lastTs
      ensures Valid() && BookState() == old(BookState()) && book.lastUpdate == lastTs == ts
    {
      hide Crc32Table.Valid, Plausible, ArraySide.Valid;
      book.SetLastUpdate(ts);
      lastTs := ts;
      assert book.Levels(Bid) == old(book.Levels(Bid)) && book.Levels(Ask) == old(book.Levels(Ask));
    }

    /** The levels of a message, trimmed to the subscription. */
    method LoadBook(msg: Message) returns (removed: nat)
      requires Valid()
      modifies book.Repr(), this`stats
      ensures Valid()
      ensures BookState() == Loaded(old(BookState()), msg, depth)
      ensures stats == old(stats).(refused := old(stats).refused + RefusedCount(msg.levels))
      ensures removed == TrimmedCount(old(BookState()), msg, depth)
    {
      hide L2Book.Valid, Crc32Table.Valid, ApplyAll, TrimBook, RefusedCount;
      ApplyLevels(msg.levels);
      removed := TrimBoth();
    }

    /** The common tail of a snapshot and an update: levels, trim, timestamp. */
    method LoadLevels(msg: Message)
      requires Valid()
      modifies book.Repr(), this`stats, this`lastTs
      ensures Valid()
      ensures State() == LoadState(old(State()), old(BookState()), msg, depth)
    {
      hide L2Book.Valid, Crc32Table.Valid, Loaded, TrimmedCount, RefusedCount, SequenceTracker.State;
      var removed := LoadBook(msg);
      Stamp(msg.ts);
      stats := stats.(applied := stats.applied + 1, trimmed := stats.trimmed + removed);
    }

    method VerifyChecksum(msg: Message) returns (ok: bool)
      requires Valid() && msg.checksum.Some?
      modifies this`stats
      ensures Valid()
      ensures ok == (BookChecksum(BookState()) == msg.checksum.value)
      ensures stats == old(stats).(verified := old(stats).verified + 1,
                                   mismatches := old(stats).mismatches + (if ok then 0 else 1))
    {
      hide Checksum, ArraySide.Valid, Crc32Table.Row, Plausible;
      var local := KrakenChecksum(book, table);
      stats := stats.(verified := stats.verified + 1);
      ok := local == msg.checksum.value;
      if !ok {
        stats := stats.(mismatches := stats.mismatches + 1);
      }
    }

    method RequestResync() returns (r: Status)
      requires Valid()
      modifies this`synced, this`stats, tracker
      ensures Valid() && r == NeedsSnapshot && State() == Desync(old(State()))
    {
      hide ArraySide.Valid, Crc32Table.Row, Plausible;
      synced := false;
      tracker.Drop();
      stats := stats.(resyncs := stats.resyncs + 1);
      r := NeedsSnapshot;
    }

    method Finish(msg: Message) returns (r: Status)
      requires Valid()
      modifies this`synced, this`stats, tracker
      ensures Valid() && Reply(State(), r) == Verify(old(State()), msg)
    {
      hide L2Book.Valid, Crc32Table.Valid, BookChecksum;
      if msg.checksum.Some? {
        var ok := VerifyChecksum(msg);
        if !ok {
          r := RequestResync();
          return;
        }
      }
      r := Applied;
    }

    method EmptyBook()
      requires Valid()
      modifies book.Repr()
      ensures Valid() && State() == old(State()).(book := EMPTY)
    {
      hide Crc32Table.Valid, Plausible;
      book.Clear();
    }

    /** Everything a snapshot does before it is verified. */
    method ReplaceBook(msg: Message)
      requires Valid()
      modifies Repr()
      ensures Valid() && State() == Replaced(old(State()), msg, depth)
    {
      hide L2Book.Valid, Crc32Table.Valid, LoadState;
      ghost var start := State();
      EmptyBook();
      LoadLevels(msg);
      LoadReplaces(start, start.(book := EMPTY), EMPTY, msg, depth);
      if msg.ids.Some? {
        tracker.RecordSnapshot(msg.ids.value.final);
      }
      synced := true;
      stats := stats.(snapshots := stats.snapshots + 1);
    }

    /** A snapshot from the stream or out of band: it replaces the book, or changes nothing. */
    method ApplySnapshot(msg: Message) returns (r: Status)
      requires Valid()
      modifies Repr()
      ensures Valid() && Reply(State(), r) == TakeSnapshot(old(State()), msg, depth)
    {
      hide L2Book.Valid, Crc32Table.Valid, Replaced, Verify;
      if !msg.ok {
        stats := stats.(rejected := stats.rejected + 1);
        return Rejected;
      }
      ReplaceBook(msg);
      r := Finish(msg);
    }

    method ApplyUpdate(msg: Message) returns (r: Status)
      requires Valid()
      modifies Repr()
      ensures Valid() && Reply(State(), r) == TakeUpdate(old(State()), msg, depth)
    {
      hide L2Book.Valid, Crc32Table.Valid, LoadState, Verify, OnUpdate, Classify;
      if !synced {
        return NeedsSnapshot;
      }
      if msg.ids.Some? {
        var action := tracker.Update(msg.ids.value);
        if action == DiscardStale {
          stats := stats.(ignored := stats.ignored + 1);
          return Ignored;
        }
        if action == ResyncRequired {
          r := RequestResync();
          return;
        }
      }
      LoadLevels(msg);
      r := Finish(msg);
    }

    /** Feed one raw frame. */
    method Handle(frame: string) returns (r: Status)
      requires Valid()
      modifies Repr()
      ensures Valid() && Reply(State(), r) == TakeFrame(old(State()), decode(frame), depth)
    {
      hide L2Book.Valid, Crc32Table.Valid, TakeSnapshot, TakeUpdate;
      stats := stats.(frames := stats.frames + 1);
      var msg := decode(frame);
      if !msg.ok {
        stats := stats.(rejected := stats.rejected + 1);
        return Rejected;
      }
      match msg.kind {
        case NotBook =>
          stats := stats.(ignored := stats.ignored + 1);
          r := Ignored;
        case VenueError =>
          stats := stats.(venueErrors := stats.venueErrors + 1, rejected := stats.rejected + 1);
          r := Rejected;
        case SnapshotKind =>
          r := ApplySnapshot(msg);
        case UpdateKind =>
          r := ApplyUpdate(msg);
      }
    }

    /** Force a resync. */
    method Invalidate()
      requires Valid()
      modifies this`synced, this`stats, tracker
      ensures Valid() && State() == Desync(old(State()))
    {
      var _ := RequestResync();
    }

    /** Declare the feed stale when nothing arrived for longer than `maxGap`. */
    method CheckStaleness(now: int, maxGap: int) returns (stale: bool)
      requires Valid()
      modifies this`synced, this`stats, tracker
      ensures Valid() && stale == IsStale(old(State()), now, maxGap)
      ensures State() == FeedModel.Next(old(State()), Staleness(now, maxGap), depth)
    {
      hide L2Book.Valid, Crc32Table.Valid;
      if !synced || lastTs == 0 || maxGap <= 0 {
        return false;
      }
      if now - lastTs > maxGap {
        Invalidate();
        return true;
      }
      stale := false;
    }
  }

  lemma LoadReplaces(s: FeedState, t: FeedState, b: Book, msg: Message, depth: nat)
    requires t == s.(book := t.book)
    ensures LoadState(s, b, msg, depth) == LoadState(t, b, msg, depth)
  {
    hide Loaded, RefusedCount, TrimmedCount;
  }
}
