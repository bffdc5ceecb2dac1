# crossbook: a verified model

crossbook rebuilds exchange order books from websocket feeds and checks them against the
exchange's own arithmetic.  This project models its I/O-free core in Dafny and proves what the
library says of itself.

- **Order-by-order book** (`NaiveBook`, `Bits`, `OrderTable`, `OrderQueues`, `L3Invariant`, `L3`): an arena
  with a free list, doubly linked queues per price and an open-addressed id table, proved equal to a
  map of orders with arrival numbers.  The volume ahead of an order never grows.
- **Aggregated book** (`BookOrder`, `PriceWindow`, `Sides`, `Depth`, `L2`): a moving direct-address
  window with a sorted spill list, proved equal to a map over the whole 64-bit price range, with
  amortised rebuilds and depth trimming.
- **Frame reader** (`FrameCodec`, `FrameStream`, `FrameBytes`, `FrameReading`): RFC 6455 frames from a byte stream
  cut anywhere; the events depend on the bytes alone.
- **Feed** (`Sequencing`, `FeedModel`, `Feeds`, `Reconcile`): snapshot, continuity, checksum,
  recovery; against a venue modelled as a numbered log of absolute changes, a synced book is the
  venue's book.
- **Checksums** (`Crc`, `Checksums`), **decimals** (`Decimal`, `Fixed`), **JSON** (`JsonGrammar`,
  `JsonScan`), **latency histogram** (`Buckets`, `Histograms`), **execution and routing** (`Checked`,
  `Execution`, `Consolidated`), **dates** (`CivilDate`): fast forms against slow definitions.

Classes keep the source's fields; pure functions say what their methods compute, and lemmas say
what that means.  `dafny verify dfyconfig.toml` checks everything.

Where the code and its comments differ, or a promise holds only in part, the model follows the code;
a lemma names the input and, where a caller could tell the cases apart, another says exactly when the
promise holds.

- A written exponent beyond 1000 is clamped: a number may be accepted as another one
  (`Fixed.ClampedExponentIsWrong`; exactly when: `Fixed.ExactIffExponentInRange`), refused for precision
  although it is exact (`Fixed.ClampedExponentIsRefused`; `Fixed.RefusesOnlyToAvoidRounding`), or, as any
  shift beyond the power table, refused for overflow although it fits (`Fixed.ZeroOverflows`;
  `Fixed.OverflowIsSpuriousIff`).
- Sequence ids that wrap, or events that end before they start, break continuity
  (`Sequencing.WrapAppliesThePast`, `Sequencing.BackwardEventMovesBack`; exactly when, by policy:
  `Sequencing.SpotAppliesWithoutHoles`, `Sequencing.StrictAdvances`, `Sequencing.FuturesAdvances`).
- An unnumbered snapshot leaves the tracker at its old position
  (`FeedModel.UnnumberedSnapshotKeepsOldPosition`; `FeedModel.SnapshotAnchors`,
  `FeedModel.OlderPositionIsUsed`).
- Frames that arrive but are not applied do not keep a feed from being declared stale
  (`FeedModel.HeartbeatsDoNotCount`; `FeedModel.FrameRefreshesIff`).
- A venue without a book is skipped without being counted as rejected
  (`Consolidated.VenueWithoutABookIsUncounted`; `Consolidated.CountedIffBook`,
  `Consolidated.AllCountedIffAllHaveBooks`).
- At a negative price the fee flatters the venue (`Consolidated.NegativeQuoteIsFlattered`;
  `Consolidated.FeeIsTight`).
- A one-byte close payload is reported as a protocol error but, unlike every other failure, is not
  latched (`FrameStream.OneByteCloseIsNotLatched`; `FrameStream.UnlatchedIffOneByteClose`).
- A control frame sent inside a message counts against the message ceiling
  (`FrameStream.PingNearTheCeiling`; `FrameStream.FragmentationIsTransparent`).
- A member walk accepts one nesting level more than `well_formed` (`JsonScan.ThirtyThreeObjects`;
  `JsonScan.WalkOkIff`).
- The signed multiply refuses INT64_MIN even times zero, not at one product only
  (`Checked.MinimumTimesZeroIsRefused`; `Checked.CheckedMulSigned`).
- A day past its month's end is read as the day it runs over to, and second 60 as the next minute's
  first (`CivilDate.ThirtyFirstOfFebruary`, `CivilDate.LeapSecondIsNextYear`; `CivilDate.NamesADayIff`,
  `CivilDate.ReadAsWrittenIff`).
- A text may pass for canonical and not parse (`Fixed.PlusMinusFive`; `Fixed.CanonicalParsesIff`).
- On a subscription to fewer than ten levels the venue's own checksum can fail
  (`Reconcile.ShallowViewIsRefused`; `Reconcile.DepthFeedKeepsTheView`, `Reconcile.ViewsCheckWhen`).

## Model

| member | source | states |
|---|---|---|
| `NaiveBook.ApplyKeepsModelOk` | `fuzz/fuzz_l3.cpp:36-92` | every operation of the naive model keeps quantities positive and arrival numbers distinct |
| `NaiveBook.Answers` | `include/crossbook/l3.hpp:97-176` | which operations succeed; a refused one changes nothing |
| `NaiveBook.AddJoinsTheBack` | `include/crossbook/l3.hpp:92-116` | a new order has the whole level ahead of it and raises the total at its price, and no other, by its quantity |
| `NaiveBook.RemoveTakesItsOwn` | `include/crossbook/l3.hpp:147-158` | a removed order is gone, and the total at its price falls by what it held; every other order is as it was |
| `NaiveBook.ModifySetsTheQuantity` | `include/crossbook/l3.hpp:118-144` | a modified order rests at the new quantity or is gone; it goes behind the rest of its level exactly on an increase, and otherwise keeps the volume ahead of it |
| `NaiveBook.ExecuteConserves` | `include/crossbook/l3.hpp:160-176` | what rests after a trade plus what traded is what rested; the total at the price falls by what traded, place and every other order stay |
| `NaiveBook.OthersMoveUp` | `include/crossbook/l3.hpp:198-220` | a trade or removal lowers another order's volume ahead by exactly what left in front of it |
| `NaiveBook.AheadNeverGrows` | `include/crossbook/l3.hpp:122-176` | whatever one operation does to other orders, the volume ahead of an order that keeps its place does not grow |
| `NaiveBook.AheadNeverGrowsInARun` | `include/crossbook/l3.hpp:202-220` | the same over every run in which the order stays live and is neither size-increased nor cleared |
| `OrderTable.FindSlot` | `include/crossbook/l3.hpp:308-325` | probing finds the slot of an id exactly when the table maps it: tombstones sever no chain |
| `OrderTable.FreeSlot` | `include/crossbook/l3.hpp:333-337` | the unbounded insert probe ends, at a slot that is not occupied |
| `OrderTable.Rehashed` | `include/crossbook/l3.hpp:361-377` | growing moves every entry, drops the tombstones and keeps the map |
| `OrderTable.InsertKeepsTable` | `include/crossbook/l3.hpp:327-342` | filling a free slot on the probe path adds exactly one key; the used count follows |
| `OrderTable.EraseKeepsTable` | `include/crossbook/l3.hpp:344-359` | burying a slot removes exactly its key, and no other key becomes unreachable |
| `OrderTable.FreshSlotExists` | `include/crossbook/l3.hpp:328-337` | while fewer slots are used than there are, as the 70% rule ensures, a never-used slot remains to end every probe |
| `OrderTable.TableCapacity` | `include/crossbook/l3.hpp:312-322` | the probe's bit-and with capacity less one is the remainder: the first slot is the hash modulo the capacity, the next one the successor, wrapping round |
| `Bits.MaskIsRemainder` | `include/crossbook/l3.hpp:312-322` | a bitwise and with a power of two less one is the remainder by that power |
| `OrderQueues.UnlinkKeepsChain` | `include/crossbook/l3.hpp:414-441` | unlinking leaves the rest of the queue linked both ways, in order, short by the order's quantity |
| `OrderQueues.LinkBackKeepsChain` | `include/crossbook/l3.hpp:395-409` | linking appends to a well linked queue |
| `OrderQueues.OneQueueChanged` | `include/crossbook/l3.hpp:395-441` | an operation on one queue leaves every other queue and level intact: no slot is in two lists |
| `L3Invariant.AddKeepsTied` | `include/crossbook/l3.hpp:97-116` | an add keeps arena, free list, index, queues and the naive model tied together |
| `L3Invariant.RemoveKeepsTied` | `include/crossbook/l3.hpp:147-158` | so does a removal, which frees the slot |
| `L3Invariant.RequeueKeepsTied` | `include/crossbook/l3.hpp:138-142` | so does losing priority on an increase: the order becomes the newest arrival |
| `L3Invariant.ResizeKeepsTied` | `include/crossbook/l3.hpp:131-136` | so does a change of quantity that keeps priority |
| `L3.NextPow2` | `include/crossbook/l3.hpp:290-296` | the smallest power of two, at least 16, that is not below the argument |
| `L3.L3Book.constructor` | `include/crossbook/l3.hpp:82-87` | starts as the empty model |
| `L3.L3Book.FindRef` | `include/crossbook/l3.hpp:308-325` | the live reference of an id, or none |
| `L3.L3Book.Rehash` | `include/crossbook/l3.hpp:361-377` | keeps the index |
| `L3.L3Book.InsertRef` | `include/crossbook/l3.hpp:327-342` | adds one entry to the index |
| `L3.L3Book.EraseRef` | `include/crossbook/l3.hpp:344-359` | removes one entry from the index |
| `L3.L3Book.Allocate` | `include/crossbook/l3.hpp:379-387` | a slot from the free list, or a new one |
| `L3.L3Book.LinkBack` | `include/crossbook/l3.hpp:395-409` | the order is last in its level's queue; nothing else moves |
| `L3.L3Book.Unlink` | `include/crossbook/l3.hpp:414-441` | the order leaves its queue; an emptied level goes |
| `L3.L3Book.Add` | `include/crossbook/l3.hpp:97-116` | same answer and same next state as the naive model; the arena grows only when every slot is live |
| `L3.L3Book.Modify` | `include/crossbook/l3.hpp:122-144` | same answer and same next state as the naive model; the arena keeps its size |
| `L3.L3Book.Remove` | `include/crossbook/l3.hpp:147-158` | same answer and same next state as the naive model; the arena keeps its size |
| `L3.L3Book.Execute` | `include/crossbook/l3.hpp:164-176` | same answer and same next state as the naive model; the arena keeps its size |
| `L3.L3Book.Clear` | `include/crossbook/l3.hpp:179-189` | no orders and no slots remain |
| `NaiveBook.PeakIsLargest` | `include/crossbook/l3.hpp:379-387` | the arena size these contracts name is, over every run without a clear, the most orders ever live at once, if more than it started with |
| `NaiveBook.PeakAfterClear` | `include/crossbook/l3.hpp:179-189` | and a clear starts it over from nothing |
| `L3.L3Book.Find` | `include/crossbook/l3.hpp:192-195` | the order as the naive model holds it |
| `L3.L3Book.QueueAheadOf` | `include/crossbook/l3.hpp:202-220` | the naive model's volume ahead, by walking the list |
| `L3.L3Book.FindLevel` | `include/crossbook/l3.hpp:223-227` | a level's total and order count are those of the orders at that price |
| `L3.L3Book.ForEachLevel` | `include/crossbook/l3.hpp:246-261` | visits the naive per-price totals in book order until told to stop |
| `L3.L3Book.Best` | `include/crossbook/l3.hpp:230-238` | the first of those levels |
| `L3.L3Book.ForEachOrder` | `include/crossbook/l3.hpp:265-275` | visits the price's one arrival-ordered queue from its front, to the first order at which the visitor declines |
| `NaiveBook.QueueIsUnique` | `include/crossbook/l3.hpp:265-275` | a set of orders has only one listing by arrival |
| `L3.ChainIsQueue` | `include/crossbook/l3.hpp:265-275` | following a level's links gives exactly the naive model's queue at that price |
| `L3.L3Book.Shape` | `include/crossbook/l3.hpp:279-280` | arena size is live orders plus free slots; no slot is in two queues, twice in one, or both queued and free |
| `BookOrder.InOrderLists` | `include/crossbook/book.hpp:87-101` | iterating a side lists exactly its levels, strictly in book order |
| `BookOrder.ListingIsUnique` | `include/crossbook/book.hpp:43-45` | a map has only one listing in book order |
| `BookOrder.VisitIs` | `include/crossbook/book.hpp:85-101` | a visit shows a front of the listing, each proper part of it agreed to, and ends early only where the visitor declined |
| `BookOrder.ListingRuns` | `include/crossbook/book.hpp:41-45` | bids are listed from the highest price down, asks from the lowest up |
| `BookOrder.BestIsExtreme` | `include/crossbook/book.hpp:41-45` | the first listed is the highest bid or the lowest ask |
| `Sides.MapSide.Apply` | `include/crossbook/book.hpp:57-63` | the specification side: quantities are absolute, zero removes |
| `Sides.AnchorFor` | `include/crossbook/book.hpp:426-448` | the window placed at any touch covers it and stays within 64 bits |
| `Sides.AnchorIsCentred` | `include/crossbook/book.hpp:426-448` | the window reaches as far below the touch as above, or lies against the end of the range that is in the way |
| `Sides.WindowIndex` | `include/crossbook/book.hpp:450-462` | the slot of a price if and only if it lies in the window, over the full price range |
| `Sides.ArraySide.constructor` | `include/crossbook/book.hpp:147-150` | starts as the empty map |
| `Sides.ArraySide.Apply` | `include/crossbook/book.hpp:152-227` | the side holds exactly what the map would, window, spill, hint, dirty range and rebuild credit all kept |
| `Sides.ArraySide.Clear` | `include/crossbook/book.hpp:229-249` | the empty map, the credit balanced |
| `Sides.ArraySide.Best` | `include/crossbook/book.hpp:283-300` | the first level in book order, from the hint and the end of the spill list |
| `Sides.ArraySide.ForEach` | `include/crossbook/book.hpp:323-390` | merging window and spill emits exactly the map's levels in book order, until told to stop |
| `Sides.ArraySide.Size` | `include/crossbook/book.hpp:251-251` | the number of levels |
| `Sides.ArraySide.PriceAt` | `include/crossbook/book.hpp:464-468` | slot to price, without overflow |
| `Sides.ArraySide.SeekOccupied` | `include/crossbook/book.hpp:346-360` | stops at the next occupied slot and passes none |
| `Sides.ArraySide.AdvanceBestAfterRemoval` | `include/crossbook/book.hpp:551-570` | the hint is again the occupied slot nearest the touch |
| `Sides.ArraySide.ClearWindowSlots` | `include/crossbook/book.hpp:492-505` | zeroing the dirty range zeroes the whole window |
| `Sides.ArraySide.OverflowLowerBound` | `include/crossbook/book.hpp:515-520` | the first spilled level not below a price |
| `Sides.ArraySide.OverflowSet` | `include/crossbook/book.hpp:522-530` | the spill list stays sorted and gains or replaces one level |
| `Sides.ArraySide.OverflowErase` | `include/crossbook/book.hpp:532-538` | the spill list stays sorted and loses at most that level |
| `Sides.ArraySide.RebuildAroundTouch` | `include/crossbook/book.hpp:576-632` | re-anchoring leaves the map as it was, centres the window on its best price, sets the floor to what still spills, and says degraded exactly when the spill did not shrink |
| `Sides.ArraySide.RebuildsArePaidFor` | `include/crossbook/book.hpp:189-226` | 65 times the number of rebuilds never exceeds the number of new levels inserted outside the window |
| `Depth.TopNIsPrefix` | `include/crossbook/book.hpp:754-782` | the kept levels are the first N in book order |
| `Depth.TopNIsTop` | `include/crossbook/book.hpp:754-782` | they number N or all, and every other level is worse |
| `Depth.KeptBeatsDropped` | `include/crossbook/book.hpp:754-782` | a kept bid is higher, a kept ask lower, than any level dropped |
| `Depth.TopIsUnique` | `include/crossbook/book.hpp:754-782` | only one selection has that property |
| `Depth.ApplyListAt` | `include/crossbook/feed.hpp:291-295` | of several absolute updates to a price only the last matters |
| `Depth.TrimRestoresView` | `include/crossbook/book.hpp:734-753` | old top N, plus a message silent about levels pushed out, plus a trim, is the venue's new top N |
| `L2.L2Book.Apply` | `include/crossbook/book.hpp:713-719` | negative price or quantity is refused and changes nothing; otherwise one side moves as the map does |
| `L2.L2Book.Clear` | `include/crossbook/book.hpp:723-726` | both sides empty |
| `L2.L2Book.Best` | `include/crossbook/book.hpp:732-732` | the first level in book order |
| `L2.L2Book.Trim` | `include/crossbook/book.hpp:754-782` | exactly the first N levels remain, however many batches of 64 that takes; the count is how many went |
| `L2.L2Book.Top` | `include/crossbook/book.hpp:797-804` | the first n levels, or one when n is zero |
| `L2.L2Book.SetLastUpdate` | `include/crossbook/book.hpp:729-729` | moves the timestamp and no level |
| `FrameCodec.HeaderRoundTrip` | `include/crossbook/net/ws_frame.hpp:110-192` | every legal header parses back from its wire form, whatever follows |
| `FrameCodec.ParsedIsWireForm` | `include/crossbook/net/ws_frame.hpp:110-192` | nothing but a legal header's one wire form is accepted: minimal lengths, no reserved bits, no long or fragmented controls |
| `FrameCodec.HeaderStable` | `include/crossbook/net/ws_frame.hpp:110-116` | a verdict other than incomplete never changes when bytes arrive |
| `FrameCodec.TruncationIsIncomplete` | `include/crossbook/net/ws_frame.hpp:138-148` | every proper prefix of a legal header asks for more |
| `FrameCodec.MalformedIsHopeless` | `include/crossbook/net/ws_frame.hpp:119-129` | malformed bytes begin no legal header |
| `FrameCodec.ParseFrameHeader` | `include/crossbook/net/ws_frame.hpp:110-192` | the byte-by-byte parser computes that decision |
| `FrameCodec.WriteFrameHeader` | `include/crossbook/net/ws_frame.hpp:217-244` | the buffer starts with the masked header's wire form |
| `FrameCodec.WrittenParsesBackIff` | `include/crossbook/net/ws_frame.hpp:210-244` | a written header parses back if and only if it is legal; the others are malformed, whatever follows |
| `FrameBytes.ClientHeaders` | `include/crossbook/net/ws_frame.hpp:217-244` | a client's short header is the same first byte, the length with the mask bit, and the key |
| `FrameCodec.MaskTwiceIsIdentity` | `include/crossbook/net/ws_frame.hpp:198-208` | masking twice with one key restores the payload |
| `FrameCodec.MaskInPieces` | `include/crossbook/net/ws_frame.hpp:196-199` | a payload masked in pieces at their offsets is the payload masked whole |
| `FrameCodec.ZerosShowTheKey` | `include/crossbook/net/ws_frame.hpp:198-208` | four zeros where a key begins are masked to the key |
| `FrameCodec.MaskIsAPattern` | `include/crossbook/net/ws_frame.hpp:198-208` | masking is exclusive or with masked zeros |
| `FrameCodec.ApplyMask` | `include/crossbook/net/ws_frame.hpp:198-208` | masks in place, the zero key included |
| `FrameStream.NextThenReceive` | `include/crossbook/net/ws_frame.hpp:341-432` | bytes arriving later never alter a complete event, and a dry reader resumes where it stopped |
| `FrameStream.DrainThenReceive` | `include/crossbook/net/ws_frame.hpp:312-315` | draining, receiving and draining is receiving and draining |
| `FrameStream.SplitIndependent` | `include/crossbook/net/ws_frame.hpp:312-432` | for every sequence of appends and pulls, the events are those of the whole stream and it fails alike |
| `FrameStream.FailureIsLatched` | `include/crossbook/net/ws_frame.hpp:456-459` | a failure returned is exactly the failure stored |
| `FrameStream.FailedForGood` | `include/crossbook/net/ws_frame.hpp:335-344` | once failed, no calls yield an event or another verdict |
| `FrameStream.OneByteCloseIsNotLatched` | `include/crossbook/net/ws_frame.hpp:481-485` | a one-byte close is reported yet the next frame is still read |
| `FrameStream.UnlatchedIffOneByteClose` | `include/crossbook/net/ws_frame.hpp:456-485` | of the legal frames that do not just extend a message, the one whose error is reported and not latched is exactly the one-byte close that fits |
| `FrameBytes.PingsAndPongs` | `include/crossbook/net/ws_frame.hpp:461-479` | bytes 0x89 n p are a ping of p and 0x8A n p a pong of it, inside a message too |
| `FrameBytes.Closes` | `include/crossbook/net/ws_frame.hpp:481-496` | bytes 0x88 0 close with 1005; otherwise the first two payload bytes are the code, high one first, and the rest the reason |
| `FrameBytes.WholeMessages` | `include/crossbook/net/ws_frame.hpp:406-431` | bytes 0x81 n p are a text message and 0x82 n p a binary one |
| `FrameBytes.Fragments` | `include/crossbook/net/ws_frame.hpp:395-431` | bytes 0x01 or 0x02 begin a message, 0x00 continue it and 0x80 end it, delivered under the first frame's type |
| `FrameBytes.TwoByteLength` | `include/crossbook/net/ws_frame.hpp:140-153` | after 126 the length is two bytes, high one first |
| `FrameBytes.EightByteLength` | `include/crossbook/net/ws_frame.hpp:154-169` | after 127 it is eight |
| `FrameBytes.BadFirstBytes` | `include/crossbook/net/ws_frame.hpp:119-136` | a reserved bit, an unknown opcode or a fragmented control frame is a protocol error at the second byte, and latched |
| `FrameBytes.LongControl` | `include/crossbook/net/ws_frame.hpp:171-180` | so is a control frame with a longer length |
| `FrameBytes.BadFrames` | `include/crossbook/net/ws_frame.hpp:360-404` | so is a masked frame, a continuation of nothing and a message begun inside another |
| `FrameBytes.TooLarge` | `include/crossbook/net/ws_frame.hpp:369-375` | a frame beyond the ceiling is too large, and that is latched, before any of its payload is there |
| `FrameStream.WithinCeiling` | `include/crossbook/net/ws_frame.hpp:369-375` | no message, assembled or emitted, exceeds the ceiling |
| `FrameStream.WaitingIsBounded` | `include/crossbook/net/ws_frame.hpp:369-381` | a reader that asks for more holds less than one largest frame |
| `FrameStream.DrainDecodesFrames` | `include/crossbook/net/ws_frame.hpp:341-432` | the bytes of legal frames yield exactly what the frames mean |
| `FrameStream.EventsComeFromFrames` | `include/crossbook/net/ws_frame.hpp:341-432` | whatever the bytes, what was consumed is the wire form of legal frames, and the events are theirs |
| `FrameStream.FragmentationIsTransparent` | `include/crossbook/net/ws_frame.hpp:384-431` | fragmented messages with controls anywhere inside are delivered whole after their controls, exactly when the sizes fit |
| `FrameStream.MessagesSurviveTheWire` | `include/crossbook/net/ws_frame.hpp:384-431` | the same from bytes |
| `FrameStream.AcceptedFramesAreItems` | `include/crossbook/net/ws_frame.hpp:395-404` | only properly fragmented messages and controls are accepted |
| `FrameStream.PingNearTheCeiling` | `include/crossbook/net/ws_frame.hpp:372-375` | a message that fits is refused when a control frame inside it does not fit beside it |
| `FrameReading.FrameReader.constructor` | `include/crossbook/net/ws_frame.hpp:306-309` | an empty stream |
| `FrameReading.FrameReader.ConsumePending` | `include/crossbook/net/ws_frame.hpp:499-508` | changes no meaning |
| `FrameReading.FrameReader.Compact` | `include/crossbook/net/ws_frame.hpp:514-531` | moving the unread bytes changes no meaning, and less than the threshold stays behind |
| `FrameReading.FrameReader.Append` | `include/crossbook/net/ws_frame.hpp:312-315` | exactly these bytes are added to the stream |
| `FrameReading.FrameReader.WritableTail` | `include/crossbook/net/ws_frame.hpp:321-326` | room is added at the end of the stream |
| `FrameReading.FrameReader.Commit` | `include/crossbook/net/ws_frame.hpp:329-331` | the unfilled room is taken back |
| `FrameReading.FrameReader.ReadInto` | `include/crossbook/net/ws_frame.hpp:319-331` | room, fill and commit together are an append |
| `FrameReading.FrameReader.EmitControl` | `include/crossbook/net/ws_frame.hpp:461-496` | the event of a control frame, close codes included |
| `FrameReading.FrameReader.TakeFrame` | `include/crossbook/net/ws_frame.hpp:384-431` | one complete frame does to the buffer what it does to the stream |
| `FrameReading.FrameReader.Pull` | `include/crossbook/net/ws_frame.hpp:341-432` | the next event and state of the pure stream, with lazy consumption and reassembly |
| `FrameReading.FrameReader.Reset` | `include/crossbook/net/ws_frame.hpp:443-451` | an empty stream without failure |
| `Sequencing.SequenceTracker.RecordSnapshot` | `include/crossbook/sequence.hpp:110-116` | re-anchors at the snapshot |
| `Sequencing.SequenceTracker.Update` | `include/crossbook/sequence.hpp:120-203` | classifies by position: follows, is behind, or is a gap, under all three policies |
| `Sequencing.SequenceTracker.Drop` | `include/crossbook/sequence.hpp:216-219` | out of sync |
| `Sequencing.UnsyncedUntilSnapshot` | `include/crossbook/sequence.hpp:120-123` | once out of sync nothing is applied, whatever arrives, until a snapshot |
| `Sequencing.EachUpdateCountedOnce` | `include/crossbook/sequence.hpp:86-93` | each update heard in sync is counted as applied, discarded or a gap |
| `Sequencing.VerdictsAreCounted` | `include/crossbook/sequence.hpp:82-94` | each verdict moves its own counter only |
| `Sequencing.ContiguousNeverResyncs` | `include/crossbook/sequence.hpp:123-203` | under each policy, a contiguous stream stays in sync if and only if the event that first reaches the snapshot also joins it; it then ends at its own last id |
| `Sequencing.BehindKeepsSync` | `include/crossbook/sequence.hpp:137-142` | under each policy a repeated or late update costs neither sync nor position and is discarded |
| `Sequencing.BehindCostsSyncIff` | `include/crossbook/sequence.hpp:160-179` | what ends behind costs sync only before anything is applied, at the last 64-bit id or on an event that starts after the snapshot it ends at |
| `Sequencing.BeyondIsAppliedOrGap` | `include/crossbook/sequence.hpp:169-203` | what ends beyond the position is applied when it joins on and is otherwise a gap, which costs sync |
| `Sequencing.RepeatsDoNotMatter` | `include/crossbook/sequence.hpp:187-198` | a contiguous stream with any of its events repeated any number of times stays in sync exactly when it would without, and ends where it would |
| `Sequencing.SpotAppliesWithoutHoles` | `include/crossbook/sequence.hpp:169-203` | an update applied on spot covers the next id and moves the position forward if and only if the position is not the last 64-bit id and the update does not end before it starts |
| `Sequencing.StrictAdvances` | `include/crossbook/sequence.hpp:125-155` | an update applied on one counter is the next id, and moves forward, if and only if the counter has not wrapped |
| `Sequencing.FuturesAdvances` | `include/crossbook/sequence.hpp:169-203` | an update applied on futures moves the position back if and only if it is not the first and ends before the id it continues |
| `Sequencing.DiscardsAreBehind` | `include/crossbook/sequence.hpp:69-75` | what is discarded ends at or before the position, which stays |
| `Sequencing.SomethingFollows` | `include/crossbook/sequence.hpp:123-203` | some update would be applied if and only if in sync, but for one counter snapshotted at the last 64-bit id |
| `Sequencing.WrapAppliesThePast` | `include/crossbook/sequence.hpp:169-170` | at the last 64-bit id the anchor wraps and an old update is applied |
| `Sequencing.BackwardEventMovesBack` | `include/crossbook/sequence.hpp:187-202` | an event that ends before it starts moves the position back |
| `FeedModel.OnlySnapshotsRebuild` | `include/crossbook/feed.hpp:138-220` | out of sync, only a decoded snapshot changes the book or restores sync |
| `FeedModel.WrongBookStaysPut` | `include/crossbook/feed.hpp:8-18` | over every run without a snapshot, a known-wrong book is neither changed nor served |
| `FeedModel.SnapshotForgets` | `include/crossbook/feed.hpp:238-248` | a snapshot's book does not depend on anything before it |
| `FeedModel.SnapshotAnchors` | `include/crossbook/feed.hpp:250-266` | after any snapshot that leaves the feed in sync: numbered, the tracker stands at its id; unnumbered, and only then, the tracker is as it was |
| `FeedModel.OlderPositionIsUsed` | `include/crossbook/feed.hpp:252-255` | an update can then be applied against a position older than the book if and only if the snapshot was unnumbered and the tracker was already in sync (and not one counter at its last id) |
| `FeedModel.TrackerFollowsFeed` | `include/crossbook/feed.hpp:196-265` | in every run the tracker is in sync only while the feed is; always equal when all messages are numbered |
| `FeedModel.StatusIsHonest` | `include/crossbook/feed.hpp:34-47` | applied means in sync and any checksum equal; needs-snapshot means out of sync; ignored and rejected leave the book alone |
| `FeedModel.StatusIff` | `include/crossbook/feed.hpp:138-186` | needs-snapshot answers exactly the book data that leaves the feed out of sync; rejected, what did not decode or is the venue's error; ignored, what is no book data or behind the tracker |
| `FeedModel.StatusIsCounted` | `include/crossbook/feed.hpp:138-186` | each frame is counted once under its status; a resync when sync is lost or refused to a snapshot; every verification and mismatch |
| `FeedModel.LevelsAreCounted` | `include/crossbook/feed.hpp:238-301` | refused and trimmed levels are counted when their message is applied, and only then |
| `FeedModel.OutagesEndSync` | `include/crossbook/feed.hpp:188-220` | a lost connection ends sync, and a silence exactly when it is too long; both are counted and leave the book |
| `FeedModel.RefusedAreNegative` | `include/crossbook/feed.hpp:291-295` | the refused count is the number of levels with a negative price or quantity |
| `FeedModel.TrimmedAreBeyondDepth` | `include/crossbook/feed.hpp:296-299` | the trimmed count is the number of levels beyond the depth, side by side |
| `FeedModel.BookIsAsFreshAsFeed` | `include/crossbook/feed.hpp:250-301` | in every run the book's own timestamp, which routing goes by, is that of the last message applied |
| `FeedModel.FrameRefreshesIff` | `include/crossbook/feed.hpp:206-220` | a frame in time keeps a feed from being declared stale if and only if it is applied or itself ends sync |
| `FeedModel.StaleJustBeyondTheGap` | `include/crossbook/feed.hpp:211-220` | a silence of the maximum gap is not stale, and any longer one is |
| `FeedModel.HeartbeatsDoNotCount` | `include/crossbook/feed.hpp:138-220` | no run of frames without book data does |
| `FeedModel.MismatchDesyncs` | `include/crossbook/feed.hpp:302-307` | a failed checksum on any snapshot, or any update the tracker lets through, ends sync at once, though the message was already counted as applied |
| `FeedModel.DepthIsKept` | `include/crossbook/feed.hpp:104-108` | with a depth limit no state of any run has more levels on a side |
| `FeedModel.MismatchesAreResyncs` | `include/crossbook/feed.hpp:329-352` | in every run mismatches are at most verifications and at most resyncs |
| `FeedModel.UnnumberedSnapshotKeepsOldPosition` | `include/crossbook/feed.hpp:252-255` | after a numbered then an unnumbered snapshot, an update continuing the former is applied to the latter |
| `Feeds.Feed.Handle` | `include/crossbook/feed.hpp:138-186` | one frame does what the state machine says, for any decoder |
| `Feeds.Feed.ApplySnapshot` | `include/crossbook/feed.hpp:223-266` | clears, applies, trims, stamps, anchors, verifies; a failed decode changes nothing |
| `Feeds.Feed.ApplyUpdate` | `include/crossbook/feed.hpp:268-309` | continuity first, then levels, trim, timestamps and checksum |
| `Feeds.Feed.Stamp` | `include/crossbook/feed.hpp:300-301` | feed and book carry the message's timestamp, the levels unchanged |
| `Feeds.Feed.VerifyChecksum` | `include/crossbook/feed.hpp:329-345` | true exactly when the checksum of the two sides' top ten levels matches |
| `Feeds.Feed.RequestResync` | `include/crossbook/feed.hpp:347-352` | feed and tracker both out of sync |
| `Feeds.Feed.Invalidate` | `include/crossbook/feed.hpp:196-204` | the same, on demand |
| `Feeds.Feed.CheckStaleness` | `include/crossbook/feed.hpp:211-220` | desyncs exactly when in sync, a maximum gap is set, and the last message applied bears a nonzero time older than that |
| `Reconcile.SyncedBookIsTrue` | `include/crossbook/sequence.hpp:21-36` | under any loss, repetition or reordering of honest events, a synced book is the venue's true book at the tracker's position, for all three policies |
| `Reconcile.Advance` | `include/crossbook/sequence.hpp:187-202` | an honest update brings any book inside its range to the truth at its last id |
| `Reconcile.GaplessStreamConverges` | `include/crossbook/sequence.hpp:160-172` | under each policy, a gapless stream from an honest snapshot stays in sync if and only if it reaches back to it, and then the book follows the venue to the stream's end |
| `Reconcile.RepeatsStillConverge` | `include/crossbook/sequence.hpp:187-198` | so does the feed when any events are delivered again, any number of times: no resync, and the venue's book at the furthest id delivered |
| `Reconcile.DepthFeedKeepsTheView` | `include/crossbook/feed.hpp:104-108` | from a snapshot on, at any depth, a feed in order behind a depth-limited venue is in sync if and only if each view so far has the checksum sent with it; then it holds the venue's top levels, without a mismatch or resync |
| `Reconcile.ViewsCheckWhen` | `include/crossbook/feed.hpp:291-308` | each view has it at full depth, at ten levels or more, where the venue has no more levels than subscribed, or where no checksum comes |
| `Reconcile.ShallowViewIsRefused` | `include/crossbook/feed.hpp:296-308` | on a subscription to one level of two an honest snapshot with the venue's own checksum leaves the feed out of sync |
| `Crc.StepsLinear` | `include/crossbook/checksum.hpp:69-76` | the bit steps are linear over xor |
| `Crc.NextTable` | `include/crossbook/checksum.hpp:77-82` | table k is table 0 advanced by k zero bytes |
| `Crc.EightLookups` | `include/crossbook/checksum.hpp:136-140` | eight lookups are sixty-four bit steps |
| `Crc.FoldEight` | `include/crossbook/checksum.hpp:130-144` | one sliced round is eight bytes of the bit-by-bit definition |
| `Crc.FoldConcat` | `include/crossbook/checksum.hpp:120-148` | an update over any split is the update over the whole |
| `Crc.Crc32Table.constructor` | `include/crossbook/checksum.hpp:69-83` | all eight tables are right |
| `Crc.Crc32.Update` | `include/crossbook/checksum.hpp:120-148` | slice-by-8 and its tail compute the bit-by-bit CRC of any byte string |
| `Crc.Compute` | `include/crossbook/checksum.hpp:161-165` | the CRC32 of the reference definition |
| `Crc.CheckValue` | `include/crossbook/checksum.hpp:161-165` | the digits 1 to 9 have the check value 0xCBF43926 |
| `Checksums.KnownAnswer` | `include/crossbook/checksum.hpp:161-165` | so has the text |
| `Checksums.WriteDigits` | `include/crossbook/checksum.hpp:94-110` | the shortest decimal digits of the magnitude, INT64_MIN included |
| `Checksums.PayloadIsTheWireText` | `include/crossbook/fixed.hpp:345-379` | mantissa digits are the wire tokens without point and leading zeros, at any scales, if and only if no price or quantity is zero; otherwise they are longer |
| `Checksums.PayloadFits` | `include/crossbook/checksum.hpp:169-172` | the fixed buffer suffices for any book |
| `Checksums.PayloadInto` | `include/crossbook/checksum.hpp:186-201` | ten best asks then ten best bids, digits of price and quantity |
| `Checksums.PayloadIs` | `include/crossbook/checksum.hpp:186-201` | asks from the lowest up come first, then bids from the highest down, each as price and then quantity |
| `Checksums.TenOfEach` | `include/crossbook/checksum.hpp:186-201` | ten levels a side, or all there are, and each of them adds its digits |
| `Checksums.KrakenChecksum` | `include/crossbook/checksum.hpp:208-215` | the reference CRC32 of that payload |
| `Checksums.ChecksumIgnoresDepth` | `include/crossbook/feed.hpp:296-299` | trimming to ten levels or more never changes the checksum |
| `Checksums.ShallowChecksumDiffers` | `include/crossbook/feed.hpp:296-299` | trimming to one level changes the checksum of a book of two |
| `Fixed.ScanSound` | `include/crossbook/fixed.hpp:175-250` | what scans is a well-formed token that spells the input |
| `Fixed.ScanComplete` | `include/crossbook/fixed.hpp:175-250` | every well-formed token scans back to itself: the grammar is unambiguous |
| `Fixed.TokensAre` | `include/crossbook/fixed.hpp:175-250` | which characters a number is made of |
| `Fixed.MalformedIsUnspellable` | `include/crossbook/fixed.hpp:223-250` | the parser says malformed exactly on inputs no token spells |
| `Fixed.ComplaintsInOrder` | `include/crossbook/fixed.hpp:175-190` | a scale beyond 18 is refused first, then an empty text, then a malformed one; every refusal has mantissa zero |
| `Fixed.ExactIffExponentInRange` | `include/crossbook/fixed.hpp:241-284` | an accepted token denotes exactly its mantissa if and only if its written exponent is within 1000 or it is zero |
| `Fixed.ExactMantissaDenotes` | `include/crossbook/fixed.hpp:255-281` | a token denotes a mantissa if and only if unbounded arithmetic arrives at it |
| `Fixed.RefusesOnlyToAvoidRounding` | `include/crossbook/fixed.hpp:241-281` | a token refused for precision has an exact mantissa if and only if its written exponent exceeds 1000 and the unclamped shift is upward or divides evenly |
| `Fixed.ClampedExponentIsWrong` | `include/crossbook/fixed.hpp:241-243` | a token whose clamped exponent makes the accepted mantissa wrong |
| `Fixed.ClampedExponentIsRefused` | `include/crossbook/fixed.hpp:241-243` | a token of value one, refused for precision because its exponent was clamped |
| `Fixed.OverflowIsSpuriousIff` | `include/crossbook/fixed.hpp:206-284` | a token refused for overflow denotes a mantissa in range if and only if it is zero, or the unclamped shift is downward, divides evenly and lands in range |
| `Fixed.ZeroOverflows` | `include/crossbook/fixed.hpp:255-268` | a token of value zero, refused for overflow |
| `Fixed.FormatParses` | `include/crossbook/fixed.hpp:131-159` | parse undoes format for every mantissa but INT64_MIN and every scale |
| `Fixed.TwelveAndAHalf` | `include/crossbook/fixed.hpp:131-159` | minus twelve and a half at two places is -1250 and -12.50 |
| `Fixed.FormatIsInjective` | `include/crossbook/fixed.hpp:291-294` | no two mantissas share a spelling |
| `Fixed.CanonicalTexts` | `include/crossbook/fixed.hpp:315-325` | the canonical texts are exactly the spellings format produces, an optional plus sign aside |
| `Fixed.CanonicalParsesIff` | `include/crossbook/fixed.hpp:296-325` | a canonical text parses, and to what it parses to without its plus, if and only if it does not start with plus minus; otherwise it is malformed |
| `Fixed.PlusMinusFive` | `include/crossbook/fixed.hpp:315-325` | such a text, canonical and malformed |
| `Fixed.TokenIsMantissaDigits` | `include/crossbook/fixed.hpp:345-379` | deleting point and leading zeros from a canonical token leaves the mantissa's digits, and nothing at all of zero |
| `Fixed.CheckedMul` | `include/crossbook/fixed.hpp:95-106` | the product, or none exactly when it does not fit |
| `Fixed.CheckedAdd` | `include/crossbook/fixed.hpp:109-116` | the sum, or none exactly when it does not fit |
| `Fixed.ParseFixed` | `include/crossbook/fixed.hpp:175-284` | the accumulating parser computes the grammar's answer |
| `Fixed.FormatInto` | `include/crossbook/fixed.hpp:131-159` | the buffer filled backwards holds the canonical spelling |
| `Fixed.IsCanonicalAtScale` | `include/crossbook/fixed.hpp:315-325` | decides canonical spelling |
| `JsonGrammar.NumberGrammar` | `include/crossbook/json.hpp:103-145` | the accepted numbers are exactly those of section 6 of RFC 8259 |
| `JsonGrammar.NumberIff` | `include/crossbook/json.hpp:103-145` | in a number's parts: no plus, digits before any point and after it, no zero before another digit |
| `JsonGrammar.ScalarsAre` | `include/crossbook/json.hpp:153-158` | the other scalars are three words in lower case |
| `JsonGrammar.BareComplete` | `include/crossbook/json.hpp:184-253` | a tree's text is accepted whole if and only if it nests within the limit |
| `JsonGrammar.ValueSound` | `include/crossbook/json.hpp:184-253` | whatever is accepted is white space and the text of a tree within the limit |
| `JsonGrammar.WellFormedIff` | `include/crossbook/json.hpp:313-319` | well formed means one tree of at most 32 levels and white space |
| `JsonGrammar.TreesAreSpelled` | `include/crossbook/json.hpp:184-253` | trees are spelled with braces, brackets, colons and commas |
| `JsonGrammar.TooDeepIsRefused` | `include/crossbook/json.hpp:185-187` | deeper documents are refused |
| `JsonGrammar.StringSound` | `include/crossbook/json.hpp:163-180` | a skipped string is a quoted run with every escape paired |
| `JsonGrammar.EscapesKeepQuotes` | `include/crossbook/json.hpp:163-180` | a backslash keeps a quote inside a string |
| `JsonGrammar.QuotesEnd` | `include/crossbook/json.hpp:163-180` | and nothing else does |
| `JsonGrammar.ClassifyIsTypeOf` | `include/crossbook/json.hpp:261-289` | the first character tells an accepted value's type |
| `JsonGrammar.TypesAre` | `include/crossbook/json.hpp:261-289` | which text is of which type |
| `JsonGrammar.AcceptedHasAType` | `include/crossbook/json.hpp:261-289` | which is never invalid |
| `JsonScan.IsJsonNumber` | `include/crossbook/json.hpp:103-145` | decides the number grammar |
| `JsonScan.IsJsonScalar` | `include/crossbook/json.hpp:153-158` | decides the scalar grammar |
| `JsonScan.SkipSpaceAt` | `include/crossbook/json.hpp:79-84` | stops at the first character that is not white space |
| `JsonScan.SkipStringAt` | `include/crossbook/json.hpp:163-180` | the end of a string literal, from any position |
| `JsonScan.SkipValueAt` | `include/crossbook/json.hpp:184-253` | the recursive scan over positions computes the grammar's scanner |
| `JsonScan.WellFormed` | `include/crossbook/json.hpp:313-319` | decides well-formedness |
| `JsonScan.FindIsFirst` | `include/crossbook/json.hpp:336-392` | a lookup gives the first member of that name, or nothing when there is none |
| `JsonScan.MembersAre` | `include/crossbook/json.hpp:336-392` | a key is what stands between its quotes and a value the text of its tree; of two with one name the first is found |
| `JsonScan.FindMember` | `include/crossbook/json.hpp:336-392` | the loop over members computes that lookup |
| `JsonScan.WalkReportsMembers` | `include/crossbook/json.hpp:425-476` | a walk reports every member, in order, with its raw value and type |
| `JsonScan.WalkOkIff` | `include/crossbook/json.hpp:425-476` | a walk succeeds exactly on an object whose members nest within the limit |
| `JsonScan.WalkAcceptsOneLevelMore` | `include/crossbook/json.hpp:454-454` | objects 33 levels deep can be walked but are not well formed |
| `JsonScan.ThirtyThreeObjects` | `include/crossbook/json.hpp:454-454` | 33 nested objects are such a document |
| `JsonScan.FirstCaptureIsFind` | `include/crossbook/json.hpp:419-422` | capturing the first occurrence in a walk is the lookup |
| `JsonScan.ForEachMember` | `include/crossbook/json.hpp:425-476` | shows the walk's members to the visitor until it declines |
| `JsonScan.ShownIs` | `include/crossbook/json.hpp:425-476` | a visitor is shown a front of the members and ends the walk early, with success, only by declining |
| `Buckets.OrMask` | `include/crossbook/histogram.hpp:283-291` | or-ing in the mask only raises short bit lengths |
| `Buckets.IndexIs` | `include/crossbook/histogram.hpp:298-304` | the slot is in bounds and the wrapping subtraction loses nothing |
| `Buckets.IndexMonotone` | `include/crossbook/histogram.hpp:298-304` | no larger value lands in an earlier slot |
| `Buckets.ValueAtIndexInverts` | `include/crossbook/histogram.hpp:306-316` | a slot's value is the lowest of its range, which holds the value |
| `Buckets.SlotIsRange` | `include/crossbook/histogram.hpp:267-276` | two values share a slot if and only if one is in the other's equivalent range |
| `Buckets.Precise` | `include/crossbook/histogram.hpp:66-79` | a slot is narrower than one part in ten to the figures |
| `Histograms.Histogram.constructor` | `include/crossbook/histogram.hpp:55-106` | every argument gives a sound layout |
| `Histograms.Histogram.Record` | `include/crossbook/histogram.hpp:109-122` | slot counts, total, sum, extremes and overflow count are those of the samples with one more |
| `Histograms.FiguresAre` | `include/crossbook/histogram.hpp:109-122` | the running extremes are the smallest and largest recorded value |
| `Histograms.OneMoreSample` | `include/crossbook/histogram.hpp:109-122` | each sample adds its value to the sum and, beyond the range, one to the overflow count |
| `Histograms.Histogram.RecordCorrected` | `include/crossbook/histogram.hpp:136-148` | records the value and every sample the stall swallowed |
| `Histograms.MissingIs` | `include/crossbook/histogram.hpp:141-147` | those are the value less one interval, two, and so on down to one interval |
| `Histograms.RankExists` | `include/crossbook/histogram.hpp:157-167` | each rank has exactly one sample |
| `Histograms.RankIsSortedPlace` | `include/crossbook/histogram.hpp:150-167` | the sample of rank t is the t-th in ascending order, those beyond the range at its top |
| `Histograms.ReportIsGood` | `include/crossbook/histogram.hpp:169-182` | a slot reached at a rank reports at least that sample, at most the maximum, within the precision |
| `Histograms.ReportsAre` | `include/crossbook/histogram.hpp:150-183` | a report at f figures exceeds its sample by at most one part in ten to the f, and never the maximum |
| `Histograms.Histogram.Percentile` | `include/crossbook/histogram.hpp:157-183` | the answer at an integer rank is never optimistic, never above the maximum, and tight |
| `Histograms.Histogram.BucketTotal` | `include/crossbook/histogram.hpp:249-255` | equals the count |
| `Histograms.Histogram.Merge` | `include/crossbook/histogram.hpp:224-240` | as if the other's samples had been recorded here; refused when layouts differ |
| `Histograms.Histogram.Reset` | `include/crossbook/histogram.hpp:203-210` | no samples |
| `Checked.CheckedMulSigned` | `include/crossbook/execution.hpp:172-187` | exact, but for INT64_MIN as operand or product |
| `Checked.MinimumTimesZeroIsRefused` | `include/crossbook/execution.hpp:163-166` | the refusal reaches INT64_MIN times zero and one |
| `Checked.CheckedAddSigned` | `include/crossbook/execution.hpp:194-204` | the sum, or none exactly when it does not fit |
| `Checked.CheckedSubSigned` | `include/crossbook/execution.hpp:211-221` | the difference, or none exactly when it does not fit |
| `Checked.FloorDiv` | `include/crossbook/execution.hpp:224-228` | rounds down for every sign |
| `Checked.CeilDiv` | `include/crossbook/execution.hpp:231-235` | rounds up for every sign |
| `Checked.DivAwayFromZero` | `include/crossbook/execution.hpp:243-250` | rounds the magnitude up for every sign |
| `Execution.LimitIsTight` | `include/crossbook/execution.hpp:270-280` | the price limit allows no more slippage than asked and falls short by less than a tick |
| `Execution.LimitOverflows` | `include/crossbook/execution.hpp:270-280` | it is refused exactly when product or limit do not fit |
| `Execution.VwapIsTightAndBetween` | `include/crossbook/execution.hpp:252-258` | the average is the tight rounding against the taker and lies between touch and worst price |
| `Execution.TradeFills` | `include/crossbook/execution.hpp:407-461` | a trade fills what was wanted or all there is, says which, and names the last level it needed; it is refused for no wish, no book, or a cost that does not fit |
| `Execution.TradeReportsSlippage` | `include/crossbook/execution.hpp:407-461` | the slippage reported is the average's distance from the touch in millionths, rounded down |
| `Execution.VwapIsMonotone` | `include/crossbook/execution.hpp:407-461` | a larger trade never has a better average |
| `Execution.SlippageIsTight` | `include/crossbook/execution.hpp:286-297` | slippage is the exact ratio rounded toward zero where the multiply fits, and zero where it does not or the touch is zero |
| `Execution.WalkIsCheapest` | `include/crossbook/execution.hpp:425-441` | no other way of taking the same amount costs less |
| `Execution.WithinExactly` | `include/crossbook/execution.hpp:343-363` | the executable levels are exactly those within the limit |
| `Execution.ExecutableIsAllWithin` | `include/crossbook/execution.hpp:311-385` | an executable size is everything up to the last level at or inside the limit; the book is exhausted exactly when none lies beyond |
| `Execution.NeverExcludesAll` | `include/crossbook/execution.hpp:373-377` | no book has every level excluded |
| `Execution.ExecutableIsReproduced` | `include/crossbook/execution.hpp:311-385` | trading an executable size gives its quantity, average, worst price, levels and slippage |
| `Execution.BudgetIsKept` | `include/crossbook/execution.hpp:299-385` | an executable size's average is away from the touch by no more than the budget asked, both exactly and as reported |
| `Execution.CostToTrade` | `include/crossbook/execution.hpp:407-461` | fills the smaller of wanted and depth; overflow exactly when the true notional does not fit |
| `Execution.ExecutableSize` | `include/crossbook/execution.hpp:311-385` | the whole levels within the limit, or why not |
| `Consolidated.FeeIsTight` | `include/crossbook/consolidated.hpp:206-216` | a fee is within a tick of the exact one at every price; it is not understated if and only if the exact one is not negative or is whole |
| `Consolidated.QuarterPercent` | `include/crossbook/consolidated.hpp:206-216` | the fee is in millionths, on top of an ask and off a bid |
| `Consolidated.NegativeQuoteIsFlattered` | `include/crossbook/consolidated.hpp:206-216` | an ask at minus one, made better by its fee |
| `Consolidated.RanksAreOrdered` | `include/crossbook/consolidated.hpp:499-506` | ranking is total on distinct venues and never both ways |
| `Consolidated.RanksAreTransitive` | `include/crossbook/consolidated.hpp:499-506` | and transitive |
| `Consolidated.NamesDifferFirst` | `include/crossbook/consolidated.hpp:499-506` | names are ordered by their first difference |
| `Consolidated.InsertAt` | `include/crossbook/consolidated.hpp:375-382` | one insertion step on the array |
| `Consolidated.InsertionSort` | `include/crossbook/consolidated.hpp:374-382` | the array becomes the insertion sort of what it held |
| `Consolidated.SortSorts` | `include/crossbook/consolidated.hpp:374-382` | which is strictly ordered and a permutation |
| `Consolidated.RankingIsUnique` | `include/crossbook/consolidated.hpp:369-373` | one set of quotes has one ranking, in whatever order the quotes came |
| `Consolidated.BestIsFirstRanked` | `include/crossbook/consolidated.hpp:388-422` | the linear scan's leader is the ranking's first |
| `Consolidated.ConsolidatedBook.Update` | `include/crossbook/consolidated.hpp:249-269` | replaces that venue's quote only; another instrument or a negative fee is refused and counted |
| `Consolidated.RefusedIff` | `include/crossbook/consolidated.hpp:249-269` | a quote is refused for another instrument or a negative fee, and for nothing else |
| `Consolidated.ConsolidatedBook.Remove` | `include/crossbook/consolidated.hpp:272-279` | drops that venue only |
| `Consolidated.ConsolidatedBook.Ranked` | `include/crossbook/consolidated.hpp:353-385` | exactly the usable venues' fee-adjusted prices, best first |
| `Consolidated.RankedByPrice` | `include/crossbook/consolidated.hpp:499-506` | a ranking runs from the lowest ask up or the highest bid down, equal prices by name |
| `Consolidated.EntryIff` | `include/crossbook/consolidated.hpp:281-351` | which quotes are ranked, and as what: the taken side's touch of a venue in sync, on the instrument and fresh to the nanosecond |
| `Consolidated.ConsolidatedBook.Best` | `include/crossbook/consolidated.hpp:396-422` | no usable venue ranks before it |
| `Consolidated.LeaderHasBestPrice` | `include/crossbook/consolidated.hpp:388-422` | the best has the lowest ask or highest bid of all entries, the first name among equals |
| `Consolidated.ChooseVenue` | `include/crossbook/consolidated.hpp:547-620` | the best offer of all venues - full fill, then price, then name - and how many were asked and dropped |
| `Consolidated.ChosenFillsThenCosts` | `include/crossbook/consolidated.hpp:579-616` | a venue that fills the whole size beats any that does not, then the better price after fees wins, then the first name |
| `Consolidated.OfferIsTheTrade` | `include/crossbook/consolidated.hpp:570-589` | an offer is the trade on that venue's own book, at its average after that venue's fee |
| `Consolidated.CountedIffBook` | `include/crossbook/consolidated.hpp:560-589` | a quote is asked or counted as rejected if and only if it is usable and its venue has a book |
| `Consolidated.AskedOrRejected` | `include/crossbook/consolidated.hpp:558-589` | a usable venue with a book is asked exactly when that book is this instrument's and fresh, and rejected exactly when it makes no offer |
| `Consolidated.AllCountedIffAllHaveBooks` | `include/crossbook/consolidated.hpp:560-589` | the two counts cover every usable venue if and only if each has a book |
| `Consolidated.VenueWithoutABookIsUncounted` | `include/crossbook/consolidated.hpp:560-589` | a usable quote whose venue has no book is in neither count |
| `Consolidated.BestExecutionIsUnique` | `include/crossbook/consolidated.hpp:590-600` | venue, fill, price and counts depend on the quotes alone |
| `CivilDate.EpochIsZero` | `include/crossbook/venues/kraken.hpp:50-58` | 1970-01-01 is day 0 |
| `CivilDate.TomorrowIsOneMore` | `include/crossbook/venues/kraken.hpp:50-58` | each date is one more than the day before, over every month, leap year, century and era, negative years too |
| `CivilDate.DaysCountsDays` | `include/crossbook/venues/kraken.hpp:50-58` | day n is the date n days after the epoch |
| `CivilDate.DaysAreOrdered` | `include/crossbook/venues/kraken.hpp:50-58` | calendar order is numeric order |
| `CivilDate.ImpossibleDayRollsOver` | `include/crossbook/venues/kraken.hpp:118-123` | a day past the month's end is the day it runs over to |
| `CivilDate.NamesADayIff` | `include/crossbook/venues/kraken.hpp:118-123` | the day number of an accepted year, month and day belongs to a date of that month if and only if the month has that day |
| `CivilDate.StampIsRead` | `include/crossbook/venues/kraken.hpp:146-149` | every admitted combination of fields counts the seconds of exactly one clock reading |
| `CivilDate.ReadAsWrittenIff` | `include/crossbook/venues/kraken.hpp:118-123` | that reading is the one written if and only if the month has the day and the second is below 60 |
| `CivilDate.SameInstantIff` | `include/crossbook/venues/kraken.hpp:146-165` | two accepted timestamps parse alike if and only if they have the same reading and the same nanoseconds |
| `CivilDate.ThirtyFirstOfFebruary` | `include/crossbook/venues/kraken.hpp:118-123` | the timestamp 2023-02-31 is accepted and parses as 2023-03-03 |
| `CivilDate.LeapSecondIsNextYear` | `include/crossbook/venues/kraken.hpp:118-123` | 23:59:60 on the last of December is accepted and parses as the first second of January |
| `CivilDate.TakeDigitsAt` | `include/crossbook/venues/kraken.hpp:63-79` | exactly n digits and their value, or failure |
| `CivilDate.ParseReadsStamps` | `include/crossbook/venues/kraken.hpp:95-167` | every well-formed timestamp is read as its instant, or refused before the epoch and past the range |
| `CivilDate.ParsedIsAStamp` | `include/crossbook/venues/kraken.hpp:95-167` | nothing else is accepted |
| `CivilDate.StampIsSpelled` | `include/crossbook/venues/kraken.hpp:81-96` | the fields, separators and letters of a timestamp |
| `CivilDate.LettersAre` | `include/crossbook/venues/kraken.hpp:98-148` | either case of both letters; the zone letter ends the text; a point needs a digit |
| `CivilDate.NanosFit` | `include/crossbook/venues/kraken.hpp:155-166` | the nanosecond count never overflows |
| `CivilDate.RangeIsNearlyFull` | `include/crossbook/venues/kraken.hpp:155-166` | what is refused as too late is within two seconds of what the count can hold |
| `CivilDate.TakeFraction` | `include/crossbook/venues/kraken.hpp:127-144` | nine fractional digits exactly, shorter ones padded, the rest skipped |
| `CivilDate.FractionIsShare` | `include/crossbook/venues/kraken.hpp:127-144` | a fraction's digits are its share of a second, exact up to nine digits and rounded down beyond |
| `CivilDate.ParseRfc3339` | `include/crossbook/venues/kraken.hpp:95-167` | the field-by-field parser computes that reading |

## Left out

- The order-id mixing function: a parameter of the table and book, so the results hold for every hash.
- `L3.L3Book.Add`: asks that the arena have a free slot or fewer than 2^32 - 1 slots; order quantities and level totals are unbounded integers.
- Visitors with state of their own: a visitor is a function of what it has been shown so far; walks that accumulate read the listing level by level and stop where the source's visitor would.
- Counters are unbounded natural numbers, except the histogram's sum, which wraps at 2^64.
- Lifetime of views: an event's or value's payload is the bytes themselves, so the rule that a view is valid until the next call is not stated; the reader's separate control-frame buffer is folded into that.
- `Histograms.Histogram.Percentile`: takes the integer rank; the double-to-rank step, `mean`, `match_rate` and other floating point are not part of this model.
- `Histograms.Histogram.Merge`: the merged samples are one list after the other; every figure is a count, sum or extreme of them, so their order plays no part.
- The divergence log: its text, timestamps and retention; the counters it feeds are in the feed's statistics.
- Venue decoders (Kraken, Binance JSON and SBE): any function from frame to message stands for them.
- `Reconcile.SyncedBookIsTrue`: about full-depth feeds whose messages are numbered; events may merge changes but must tell the truth as of their last id.
- `Execution.VwapIsMonotone`: like the other cost results, on books of non-negative prices and positive quantities, which is all `L2.L2Book` ever holds.
- The routing function reads each venue's book as a listing by value (`Consolidated.VenueBook`), not by reference; `spread`, `spread_ticks` and `crossed` would only combine two calls of `Best`.
- `state_hash`, `touch_size`, the array walk and string and number readers of the JSON header, handshake, URL and capture handling: no invariant of their own worth a model.
- Sockets, TLS, clocks, replay and the command line tools.
