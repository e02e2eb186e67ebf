# IronSBE: a verified model

This project models the parts of IronSBE that hold state or do layout arithmetic, and proves what they
promise. It is written in Dafny 4.11; `dafny verify dfyconfig.toml` checks all of it.

| module | what it models |
|---|---|
| `Bytes` | little-endian numbers and writes into byte buffers |
| `Ring`, `RingProtocol` | the shared-memory ring: its copies and calls, and the producer and consumer as a concurrent protocol of single byte accesses |
| `Book`, `Recovery`, `Handler`, `HandlerRuns` | the order book, replay of queued updates, the market-data handler and its runs |
| `Layout`, `Codec`, `Groups`, `GroupLayouts` | field offsets and validation, the generated accessors, repeating groups, groups whose layout nobody checked |
| `Rdma` | completion-queue flow control against an arbitrary adapter |
| `Framing` | the length-prefix decoders and encoders of three transports |
| `Sessions` | the server's registry of sessions, tokens and senders |
| `Broadcast` | the broadcast channel |
| `Arbitration` | A/B feed arbitration, for a feed and per instrument |

Objects that the source updates in place are classes. Their methods are proved against functions on
values, and the theorems over whole runs are about those functions. The RDMA connection's runs interleave
its calls with the adapter; `Rdma.SendRefines` and `Rdma.RecvRefines` tie the methods to them.

Where a promise does not hold of the code, the model keeps the code and a lemma gives the exact
condition under which it does hold:

- Replay after a snapshot is not gap-checked: `Recovery.RecoveryExact`, with the run in
  `HandlerRuns.HoleGoesLive`.
- The replay filter keeps the snapshot's own update: `Recovery.FilterExact`.
- A zero-length field can move the validator's `max_offset` back: `Layout.TrustworthyExact`.
- Array setters count elements as bytes: `Codec.ArrayRoundTripIff`.
- Groups after the first are placed four bytes on: `Groups.TwoGroupsIff` and `Groups.SparedIff`.
- Fields of undeclared built-in types get no length and collide: `Codec.SchemaExact` and
  `Codec.UndeclaredExact`.
- The shared ring's region starts on top of its own capacity word: `Ring.CapacityKeptIff`
  and `Ring.MaskKeptIff`.
- A derived group block length is cut to 16 bits: `Groups.DerivedBlockLength`.
- No offset or block length of a group is validated: `GroupLayouts.GroupExact`.
- The Tokio encoder cuts the length to 32 bits: `Framing.FrameRoundTripIff`.
- A broadcast channel of capacity 0 evicts without end: `Broadcast.EvictionEndsIff`.
- The largest sequence number wraps gap detection: `Arbitration.AccountingExact` for the arbitrators,
  `HandlerRuns.LiveBooksAreTrue` for the handler.
- Session identifiers wrap: `Sessions.IdsDistinctIff`.

The documentation of `FeedArbitrator` says each message is processed only once. The code forgets numbers
that fall out of its cache; the model follows the code. `Arbitration.AcceptedOnce` says on which arrivals
the promise holds, and `Arbitration.ForgottenIsAcceptedAgain` gives runs that break it.

## Assumptions

- `Ring.SharedRing` and `RingProtocol` keep the control words of the shared ring apart from its byte
  region, as a header of 144 bytes would. The source reserves 128 bytes
  (ironsbe-transport/src/ipc/ringbuffer.rs:12-30), so that there `capacity` and `mask` are bytes 0 to 15
  of the region; `Ring.CapacityKeptIff`, `Ring.FirstWriteDestroysCapacity` and `Ring.MaskKeptIff` state
  what the first write then does to them.
- Acquire and release ordering gives the order of steps that the ring protocol uses.
- A child cancellation token is cancelled when its parent is; a send on an unbounded channel fails
  exactly when its receiver was dropped.
- Integer overflow wraps, as it does in a release build.
- The network, the adapter, the peer and the arrival of commands are parameters or arbitrary steps.

## Model

| member | source | states |
|---|---|---|
| `RingProtocol.DeliveredIsPrefix` | ironsbe-transport/src/ipc/ringbuffer.rs:102-210 | in every interleaving of byte stores, byte loads and publications, the messages read are a byte-exact in-order prefix of those published |
| `RingProtocol.NoOverwrite` | ironsbe-transport/src/ipc/ringbuffer.rs:119-129 | in every reachable state, no byte of a write in progress lands on a byte the consumer has not released |
| `RingProtocol.CounterAccounting` | ironsbe-transport/src/ipc/ringbuffer.rs:113-118 | head minus tail stays between 0 and the capacity and is the sum of 4 + length over the unread messages |
| `RingProtocol.Reachable` | ironsbe-transport/src/ipc/ringbuffer.rs:102-210 | the protocol invariant holds after every sequence of producer and consumer steps |
| `RingProtocol.StepInv` | ironsbe-transport/src/ipc/ringbuffer.rs:102-210 | every producer and consumer step keeps the invariant |
| `RingProtocol.StepPStore` | ironsbe-transport/src/ipc/ringbuffer.rs:121-129 | storing any one byte of a frame, in any order, keeps the unread bytes and the frame so far |
| `RingProtocol.StepPPublish` | ironsbe-transport/src/ipc/ringbuffer.rs:131-134 | publishing the head makes exactly the whole frame readable |
| `RingProtocol.StepCLoad` | ironsbe-transport/src/ipc/ringbuffer.rs:196-203 | a loaded byte is that byte of the oldest unread frame, even while the producer copies |
| `RingProtocol.StepCPublish` | ironsbe-transport/src/ipc/ringbuffer.rs:205-209 | publishing the tail releases exactly one frame |
| `RingProtocol.ReadIsOldest` | ironsbe-transport/src/ipc/ringbuffer.rs:186-210 | a read that has collected its prefix and payload delivers the oldest unread message |
| `RingProtocol.SoloWrite` | ironsbe-transport/src/ipc/ringbuffer.rs:102-135 | a write that runs undisturbed, byte by byte, is the single wrapped copy of the frame |
| `Ring.MaskIsModulo` | ironsbe-transport/src/ipc/ringbuffer.rs:62-63 | for a power-of-two capacity, masking a counter with capacity - 1 is its remainder |
| `Ring.WriteWithWrap` | ironsbe-transport/src/ipc/ringbuffer.rs:138-152 | the split copy is a write on an endless tape folded onto the region |
| `Ring.ReadWithWrap` | ironsbe-transport/src/ipc/ringbuffer.rs:213-231 | the split read is a read from the same tape |
| `Ring.ReadBack` | ironsbe-transport/src/ipc/ringbuffer.rs:138-231 | what is written at a position is read back from it, across the seam too |
| `Ring.WriteAhead` | ironsbe-transport/src/ipc/ringbuffer.rs:138-152 | a write ahead of a stretch of the tape leaves that stretch alone |
| `Ring.WriteTwice` | ironsbe-transport/src/ipc/ringbuffer.rs:123-129 | writing prefix and payload one behind the other is writing the frame, wherever the seam falls |
| `Ring.FrontFrame` | ironsbe-transport/src/ipc/ringbuffer.rs:196-203 | the prefix at the tail is the oldest length, the payload behind it the oldest message |
| `Ring.WriteFromMasked` | ironsbe-transport/src/ipc/ringbuffer.rs:121-129 | writing at the masked offset and at the full counter are the same |
| `Ring.ReadFromMasked` | ironsbe-transport/src/ipc/ringbuffer.rs:196-203 | reading at the masked offset and at the full counter are the same, a wrapping prefix included |
| `Ring.SharedRing.constructor` | ironsbe-transport/src/ipc/ringbuffer.rs:43-66 | a fresh ring of power-of-two size holds no message |
| `Ring.SharedRing.Write` | ironsbe-transport/src/ipc/ringbuffer.rs:102-135 | accepted exactly if the frame fits the free space, then queued last; a refused write changes nothing |
| `Ring.SharedRing.Read` | ironsbe-transport/src/ipc/ringbuffer.rs:186-210 | gives the oldest message and removes it, or nothing when there is none |
| `Ring.SharedRing.AvailableToWrite` | ironsbe-transport/src/ipc/ringbuffer.rs:161-166 | the free bytes |
| `Ring.SharedRing.AvailableToRead` | ironsbe-transport/src/ipc/ringbuffer.rs:240-245 | the bytes of the unread frames |
| `Ring.PrefixHoldsIff` | ironsbe-transport/src/ipc/ringbuffer.rs:119-129 | the prefix of a written frame announces the payload length if and only if that is below 2^32 |
| `Ring.ControlApartIff` | ironsbe-transport/src/ipc/ringbuffer.rs:12-30 | header sizes that keep rings of every capacity off the control words are exactly those from 144 bytes on; the source uses 128 |
| `Ring.CapacityInRegion` | ironsbe-transport/src/ipc/ringbuffer.rs:12-30 | the capacity word is the first eight bytes of the region |
| `Ring.CapacityKeptIff` | ironsbe-transport/src/ipc/ringbuffer.rs:12-30 | in the source's layout the first write keeps the capacity word if and only if its length agrees with the capacity modulo 2^32 and its first four bytes with the upper half |
| `Ring.FirstWriteDestroysCapacity` | ironsbe-transport/src/ipc/ringbuffer.rs:102-135 | so every first write destroys a capacity from 8 bytes up to 2^32 |
| `Ring.FirstWriteDestroysLowHalf` | ironsbe-transport/src/ipc/ringbuffer.rs:102-135 | down to a capacity of 4 bytes, the smallest a write fits, the low half of the word is destroyed |
| `Ring.MaskKeptIff` | ironsbe-transport/src/ipc/ringbuffer.rs:12-30 | the first write keeps the mask word if and only if its bytes 4 to 11, as far as it has them, agree with it |
| `Ring.EmptySparesLarge` | ironsbe-transport/src/ipc/ringbuffer.rs:102-135 | an empty first message keeps a capacity of 2^32 or more |
| `HandlerRuns.LiveBooksAreTrue` | ironsbe-marketdata/src/handler.rs:76-218 | over every run of a truthful feed, an Active book is the replay of the feed up to its last sequence number, and it expects the next number if and only if there is one in 64 bits |
| `HandlerRuns.RunFaithful` | ironsbe-marketdata/src/handler.rs:76-218 | every run keeps live books and queued updates truthful |
| `HandlerRuns.StepFaithful` | ironsbe-marketdata/src/handler.rs:76-187 | each step does; the snapshot step needs only that the queued updates settle |
| `HandlerRuns.IncrementalFaithful` | ironsbe-marketdata/src/handler.rs:76-150 | an incremental update keeps live books and queues truthful |
| `HandlerRuns.SnapshotRecovers` | ironsbe-marketdata/src/handler.rs:156-187 | snapshot plus replayed queue is the true book, and the next number is expected |
| `HandlerRuns.SnapshotEffect` | ironsbe-marketdata/src/handler.rs:156-187 | a snapshot replaces book, state, expectation and queue of its instrument and nothing else |
| `HandlerRuns.SnapshotForgets` | ironsbe-marketdata/src/book.rs:185-200 | the book after a snapshot does not depend on the book or expectation before it |
| `HandlerRuns.HoleGoesLive` | ironsbe-marketdata/src/handler.rs:166-173 | a run in which a snapshot turns a book with a hole Active, because queued updates are not gap-checked |
| `HandlerRuns.HoleIsVisible` | ironsbe-marketdata/src/handler.rs:166-173 | that book differs from the true one |
| `HandlerRuns.ReachableShape` | ironsbe-marketdata/src/handler.rs:56-187 | over every run, books, states and expectations have one key set and an Active instrument has no queue |
| `HandlerRuns.LiveOnlyBySnapshot` | ironsbe-marketdata/src/handler.rs:156-187 | an instrument becomes Active only by a snapshot of its own |
| `HandlerRuns.OthersUntouched` | ironsbe-marketdata/src/handler.rs:56-248 | no step touches another instrument |
| `HandlerRuns.ReachableWellFormed` | ironsbe-marketdata/src/book.rs:44-57 | over every run, no book holds an empty level or one filed under another price |
| `HandlerRuns.EveryUpdateAccounted` | ironsbe-marketdata/src/handler.rs:76-187 | over every run, each update to a subscribed instrument is exactly one of applied, ignored as old, still queued, or discarded as older than a snapshot |
| `HandlerRuns.KeptOrObsolete` | ironsbe-marketdata/src/handler.rs:167-173 | the replay filter splits the queue, losing and doubling nothing |
| `HandlerRuns.GapReport` | ironsbe-marketdata/src/handler.rs:96-124 | a live instrument reports a gap exactly when numbers are missing or none can follow, naming the expected one, and leaves the book alone |
| `Recovery.RecoveryExact` | ironsbe-marketdata/src/handler.rs:166-173 | replay recovers the true book for every feed if and only if the queued numbers settle: none is missing, and none is left behind a newer one |
| `Recovery.SettledRecovers` | ironsbe-marketdata/src/handler.rs:166-173 | a queue that settles recovers the true book of every feed |
| `Recovery.HoleBreaksRecovery` | ironsbe-marketdata/src/handler.rs:166-173 | a concrete queue with a hole that does not recover |
| `Recovery.FilterExact` | ironsbe-marketdata/src/handler.rs:167-173 | the inclusive and the strict replay filter agree for every feed if and only if no queued copy of the snapshot's own update stays behind a newer one |
| `Recovery.SettledFiltersAgree` | ironsbe-marketdata/src/handler.rs:167-173 | on a queue that settles both filters give the same book and last number |
| `Recovery.ReplayLookup` | ironsbe-marketdata/src/book.rs:172-182 | after a replay a level holds the effect of the last update that touched it |
| `Recovery.TruthLookup` | ironsbe-marketdata/src/book.rs:44-57 | in the true book a level holds the effect of the newest update that touched it |
| `Handler.MarketDataHandler.constructor` | ironsbe-marketdata/src/handler.rs:45-53 | nothing is subscribed |
| `Handler.MarketDataHandler.Subscribe` | ironsbe-marketdata/src/handler.rs:56-62 | puts an empty Initializing book in place and expects number 0; an old queue stays |
| `Handler.MarketDataHandler.Unsubscribe` | ironsbe-marketdata/src/handler.rs:65-70 | forgets the instrument everywhere |
| `Handler.MarketDataHandler.OnIncremental` | ironsbe-marketdata/src/handler.rs:76-150 | queues, applies, ignores or reports a gap, by state and sequence number |
| `Handler.MarketDataHandler.ApplyUpdate` | ironsbe-marketdata/src/handler.rs:189-218 | applies to the book, moves the expectation, and reports a moved top of book |
| `Handler.MarketDataHandler.ReplayQueue` | ironsbe-marketdata/src/handler.rs:166-173 | the replay loop applies the queued updates not older than the snapshot, in order |
| `Handler.MarketDataHandler.OnSnapshot` | ironsbe-marketdata/src/handler.rs:156-187 | loads, replays and goes Active; an unknown instrument changes nothing |
| `Handler.MarketDataHandler.MarkStale` | ironsbe-marketdata/src/handler.rs:239-248 | marks a known instrument Stale |
| `Handler.ApplyAndCompare` | ironsbe-marketdata/src/handler.rs:189-218 | says whether the best bid or ask moved |
| `Book.LookupAfter` | ironsbe-marketdata/src/book.rs:44-57 | an update sets its own level, or removes it at quantity 0, and no other |
| `Book.ApplyAllWellFormed` | ironsbe-marketdata/src/book.rs:44-57 | no run of updates leaves a level of quantity 0 or one filed under another price |
| `Book.SnapshotWellFormed` | ironsbe-marketdata/src/book.rs:185-200 | nor does any snapshot leave one, whatever levels it lists |
| `Book.OrderBook.constructor` | ironsbe-marketdata/src/book.rs:127-135 | a new book is empty |
| `Book.OrderBook.Apply` | ironsbe-marketdata/src/book.rs:172-182 | applies an update to its side and takes its sequence number |
| `Book.OrderBook.ApplySnapshot` | ironsbe-marketdata/src/book.rs:185-200 | replaces both sides and the sequence number |
| `Book.OrderBook.Top` | ironsbe-marketdata/src/book.rs:62-68 | the highest bid or lowest ask, or nothing on an empty side |
| `Layout.AutoComputeFieldOffsets` | ironsbe-schema/src/parser.rs:786-794 | the in-place loop places each omitted offset behind the field before |
| `Layout.AutoIdempotent` | ironsbe-schema/src/parser.rs:786-794 | computing offsets twice changes nothing more |
| `Layout.AutoKeepsExplicit` | ironsbe-schema/src/parser.rs:786-794 | offsets other than 0 and all lengths are kept |
| `Layout.AutoPrefixSums` | ironsbe-schema/src/parser.rs:786-794 | when all offsets are omitted they become the sums of the lengths before |
| `Layout.AutoAccepted` | ironsbe-schema/src/validation.rs:161-192 | for positive lengths the computed layout is accepted if and only if explicit offsets never step back and the last field ends inside the block |
| `Layout.OmittedNeverStepsBack` | ironsbe-schema/src/parser.rs:786-794 | offsets that are all omitted never step back |
| `Layout.ValidateMessageFields` | ironsbe-schema/src/validation.rs:157-192 | the loop gives the first complaint of its specification |
| `Layout.ValidateExact` | ironsbe-schema/src/validation.rs:161-192 | for positive lengths a message is accepted if and only if its types exist and its fields are in order, apart and inside the block |
| `Layout.TrustworthyExact` | ironsbe-schema/src/validation.rs:175-182 | acceptance implies soundness for all offsets if and only if no zero-length field stands behind one with a length, and the same for the layouts the parser produces |
| `Layout.ZeroLengthHidesOverlap` | ironsbe-schema/src/validation.rs:175-182 | an accepted message whose first and last fields overlap |
| `Codec.SchemaRoundTrip` | ironsbe-codegen/src/rust/messages.rs:135-455 | from schema fields through offset computation, validation and accessors, composites included: for every accepted message of declared types, setting all accessors in any order at any offset and decoding gives the values set and the header, and no byte outside changes |
| `Codec.SchemaExact` | ironsbe-schema/src/ir.rs:346-372 | whatever types are declared and whatever the validator says, a schema of free types reads back all values in all buffers if and only if no two of its fields, composites taken whole, share a byte |
| `Codec.DisjointIff` | ironsbe-schema/src/ir.rs:95-120 | accessors share no byte if and only if the resolved fields, composites taken whole, share none |
| `Codec.ClearRoundTrip` | ironsbe-codegen/src/rust/messages.rs:135-455 | fields that share no byte round-trip for all types, declared or not, with header and outside bytes |
| `Codec.RoundTripIff` | ironsbe-codegen/src/rust/messages.rs:355-455 | the same for any accessors |
| `Codec.OmittedAccepted` | ironsbe-schema/src/parser.rs:786-794 | with all offsets left out, a message of declared types is accepted if and only if the block holds the sum of its lengths |
| `Codec.AcceptedIsWellLaid` | ironsbe-schema/src/validation.rs:157-192 | accepted messages of declared types have accessors that are apart and inside the block |
| `Codec.MessageRoundTrip` | ironsbe-codegen/src/rust/messages.rs:313-455 | for any accessors that share no byte: the getters give the values set, the header is kept, and every byte outside the message is unchanged |
| `Codec.BlockRoundTrip` | ironsbe-codegen/src/rust/messages.rs:355-455 | after any calls in any order, a getter gives the last value set |
| `Codec.OutsideBlock` | ironsbe-codegen/src/rust/messages.rs:355-455 | setters change nothing outside the block |
| `Codec.FieldByte` | ironsbe-codegen/src/rust/messages.rs:355-455 | each byte of an accessor is that of its last value, or untouched |
| `Codec.ValidatedIsWellLaid` | ironsbe-schema/src/validation.rs:157-192 | accepted fields give accessors that are apart and inside the block |
| `Codec.MembersBetween` | ironsbe-schema/src/ir.rs:95-120 | the members of a composite lie one behind the other inside it |
| `Codec.DecodeEncode` | ironsbe-codegen/src/rust/messages.rs:135-256 | decoding an encoded value gives it back, byte arrays zero-padded or cut |
| `Codec.Set` | ironsbe-codegen/src/rust/messages.rs:355-455 | a setter writes the encoding at its offset and nothing else |
| `Codec.WriteMessage` | ironsbe-codegen/src/rust/messages.rs:313-328 | wrapping writes the header, then the setters the block |
| `Codec.HeaderRoundTrip` | ironsbe-core/src/header.rs:69-89 | a written message header is read back |
| `Codec.MessageHeader.Write` | ironsbe-core/src/header.rs:84-89 | writes the eight header bytes and nothing else |
| `Codec.ArrayRoundTripIff` | ironsbe-codegen/src/rust/messages.rs:365-389 | setting an array gives back the padded value for all contents if and only if its elements are one byte wide |
| `Codec.UndeclaredAccepted` | ironsbe-schema/src/parser.rs:692-695 | messages of undeclared built-in types with offsets left out are accepted in any block, all fields staying at offset 0 |
| `Codec.UndeclaredExact` | ironsbe-schema/src/ir.rs:346-372 | such a message round-trips if and only if it has at most one field |
| `Bytes.LERoundTrip` | ironsbe-core/src/buffer.rs:33-104 | a number that fits is read back from its little-endian bytes |
| `Bytes.LEOfFromLE` | ironsbe-core/src/buffer.rs:161-285 | and bytes are written back from the number read |
| `Bytes.CopyInto` | ironsbe-core/src/buffer.rs:161-285 | a copy replaces its stretch of the buffer and nothing else |
| `Groups.MessageWithGroupRoundTrip` | ironsbe-codegen/src/rust/messages.rs:568-662 | a message with one group gives back header, root block and every entry in order |
| `Groups.GroupRoundTrip` | ironsbe-codegen/src/rust/messages.rs:458-565 | a decoder that knows any prefix of the fields reads every entry right, because it strides by the block length on the wire |
| `GroupLayouts.GroupExact` | ironsbe-schema/src/validation.rs:203-226 | a group of any layout, none of which the validator checks, reads back for all values if and only if no accessor of an entry shares a byte with another of the same or another entry |
| `GroupLayouts.AnyIsGroup` | ironsbe-codegen/src/rust/messages.rs:568-662 | on well-laid entries its encoder is the encoder of one group |
| `GroupLayouts.LaidIsClear` | ironsbe-codegen/src/rust/messages.rs:458-565 | entries well laid inside the block length meet the condition |
| `GroupLayouts.ShortBlockShares` | ironsbe-codegen/src/rust/messages.rs:574-583 | a declared block length below the width of a field fails it with two entries |
| `Groups.RootSurvivesGroup` | ironsbe-codegen/src/rust/messages.rs:568-662 | writing a group leaves header and root block readable |
| `Groups.GroupFrame` | ironsbe-codegen/src/rust/messages.rs:568-662 | writing a group changes no byte outside it |
| `Groups.GroupHeaderRead` | ironsbe-core/src/header.rs:145-167 | block length and count are read back from the group header |
| `Groups.GroupEncoder.constructor` | ironsbe-codegen/src/rust/messages.rs:610-621 | writes the group header |
| `Groups.GroupEncoder.NextEntry` | ironsbe-codegen/src/rust/messages.rs:623-641 | gives the place of each entry once, in order, then nothing |
| `Groups.WriteGroup` | ironsbe-codegen/src/rust/messages.rs:568-662 | the encoder loop writes exactly the specified group |
| `Groups.GroupDecoder.constructor` | ironsbe-codegen/src/rust/messages.rs:478-488 | takes block length and count from the wire |
| `Groups.GroupDecoder.Next` | ironsbe-codegen/src/rust/messages.rs:504-516 | gives the place of each entry once, in order, then nothing |
| `Groups.ReadGroup` | ironsbe-codegen/src/rust/messages.rs:458-565 | iterating gives the specified entries |
| `Groups.DerivedBlockLength` | ironsbe-codegen/src/rust/messages.rs:574-583 | a block length derived from the fields holds them if and only if they end below 65536 |
| `Groups.GroupsApartIff` | ironsbe-codegen/src/rust/messages.rs:96-100 | several groups are placed apart if and only if the entries of all but the last take no bytes |
| `Groups.SeveralGroupsRoundTrip` | ironsbe-codegen/src/rust/messages.rs:343-347 | a message whose groups are all empty save the last reads back every group |
| `Groups.MessageWithGroupsRoundTrip` | ironsbe-codegen/src/rust/messages.rs:343-347 | and so do header and root fields of the whole message |
| `Groups.TwoGroupsIff` | ironsbe-codegen/src/rust/messages.rs:343-347 | two groups read back for all their values if and only if encoding the second writes no byte of an accessor of the first |
| `Groups.SparedIff` | ironsbe-codegen/src/rust/messages.rs:96-100 | with a field in the first four bytes of an entry, that is so if and only if the first group is empty |
| `Groups.GroupSurvivesRoot` | ironsbe-codegen/src/rust/messages.rs:355-455 | root setters called after the group leave it readable |
| `Groups.GroupSize` | ironsbe-core/src/header.rs:164-167 | a group takes its header and count times block length bytes |
| `Groups.GroupEncoder.EncodedLength` | ironsbe-codegen/src/rust/messages.rs:648-650 | the length reported is where the last entry ends |
| `Rdma.NeverOverflows` | ironsbe-transport-rdma/src/connection.rs:48-77 | in every run against any completion schedule the queue stays within capacity, and sends in flight plus send completions equal the pending count, at most the high water |
| `Rdma.BuffersAccounted` | ironsbe-transport-rdma/src/connection.rs:227-229 | each receive buffer is in exactly one place |
| `Rdma.ReceivedInOrder` | ironsbe-transport-rdma/src/connection.rs:558-580 | receives give the arrived frames once each, in completion order, whatever drains intervene |
| `Rdma.DrainBudget` | ironsbe-transport-rdma/src/connection.rs:661-679 | each fruitful poll of a drain uses up one unit of a measure |
| `Rdma.DrainEnds` | ironsbe-transport-rdma/src/connection.rs:661-679 | so a drain makes at most high water plus receive depth fruitful polls |
| `Rdma.PolledKeeps` | ironsbe-transport-rdma/src/connection.rs:480-512 | a send completion finds the pending count above 0: the saturating decrement never saturates |
| `Rdma.StepKeeps` | ironsbe-transport-rdma/src/connection.rs:480-647 | every step of connection and adapter keeps the invariant |
| `Rdma.SendRefines` | ironsbe-transport-rdma/src/connection.rs:582-647 | after a call of send and any steps of the adapter and polls, the bookkeeping of the run is what the method leaves, given what its polls reported |
| `Rdma.RecvRefines` | ironsbe-transport-rdma/src/connection.rs:558-580 | the same for a call of recv |
| `Rdma.ParseFrame` | ironsbe-transport-rdma/src/connection.rs:517-552 | a framed payload is parsed back, whatever follows it |
| `Rdma.RdmaConnection.constructor` | ironsbe-transport-rdma/src/connection.rs:227-229 | nothing is pending |
| `Rdma.RdmaConnection.DrainCq` | ironsbe-transport-rdma/src/connection.rs:480-512 | counts a send, queues a receive, or fails, by the completion polled |
| `Rdma.RdmaConnection.DrainUntilLowWater` | ironsbe-transport-rdma/src/connection.rs:661-679 | polls while the pending count is at or above low water and stops below it or on failure |
| `Rdma.RdmaConnection.ConsumePendingRecv` | ironsbe-transport-rdma/src/connection.rs:517-552 | gives the payload, or says why there is none |
| `Rdma.RdmaConnection.TakeRecv` | ironsbe-transport-rdma/src/connection.rs:558-580 | takes the oldest receive, polling only when none is queued, and leaves the bookkeeping that the runs have |
| `Rdma.RdmaConnection.Send` | ironsbe-transport-rdma/src/connection.rs:582-647 | refuses an oversize message, drains only at high water, never exceeds it, and leaves the bookkeeping that the runs have |
| `Framing.StreamRoundTrip` | ironsbe-transport/src/tcp/framing.rs:42-103 | for every message list and every cutting of its encoding into chunks, receiving gives the messages in order and leaves the incomplete tail |
| `Framing.ChunkingInvisible` | ironsbe-transport/src/tcp/framing.rs:42-74 | how bytes are cut into chunks never shows in the frames |
| `Framing.DrainExact` | ironsbe-transport/src/tcp/framing.rs:42-74 | draining is the one way to split a buffer into acceptable frames and a remainder that is incomplete or oversize |
| `Framing.FrameRoundTripIff` | ironsbe-transport/src/tcp/framing.rs:80-103 | a message is decoded from its encoding if and only if it is within the limit and below 2^32 bytes |
| `Framing.TruncatedPrefix` | ironsbe-transport/src/tcp/framing.rs:80-103 | a message of 2^32 bytes is decoded as empty |
| `Framing.SbeFrameCodec.constructor` | ironsbe-transport/src/tcp/framing.rs:21-25 | takes the size limit |
| `Framing.SbeFrameCodec.Decode` | ironsbe-transport/src/tcp/framing.rs:42-74 | takes one frame off; without one nothing is consumed |
| `Framing.SbeFrameCodec.Encode` | ironsbe-transport/src/tcp/framing.rs:80-103 | appends the frame, or refuses an oversize message and changes nothing |
| `Framing.UringConnection.TryTakeFrame` | ironsbe-transport/src/tcp_uring/mod.rs:216-246 | the same step as the Tokio decoder |
| `Framing.UringConnection.Recv` | ironsbe-transport/src/tcp_uring/mod.rs:252-269 | reads only as many chunks as the first frame needs |
| `Framing.UringConnection.SendOwned` | ironsbe-transport/src/tcp_uring/mod.rs:278-307 | frames a message, or refuses one that is too large for the limit or the prefix |
| `Framing.SmoltcpSession.Poll` | ironsbe-transport/src/xdp/stack/tcp.rs:289-326 | queues the frames of the drained bytes; an oversize prefix closes the session |
| `Framing.DrainTokio` | ironsbe-transport/src/tcp/framing.rs:42-74 | the Tokio decoder, called until it gives no frame, is the drain |
| `Framing.DrainUring` | ironsbe-transport/src/tcp_uring/mod.rs:216-246 | so is the io_uring decoder |
| `Framing.WireCompatible` | ironsbe-transport/src/xdp/stack/tcp.rs:300-326 | whatever encoder made each frame, all three decoders give the same messages |
| `Sessions.EveryRunKeeps` | ironsbe-server/src/builder.rs:307-432 | over every run before shutdown: tokens and sessions have the same keys, an issued session is in them exactly when its token is live, at most the maximum are, a sender is missing only if closed or its receiver is gone |
| `Sessions.StepKeeps` | ironsbe-server/src/builder.rs:307-432 | every step keeps this |
| `Sessions.IdsDistinctIff` | ironsbe-server/src/session.rs:38-39 | identifiers are never reused if and only if at most 2^64 connections are accepted |
| `Sessions.ShutdownCancelsAll` | ironsbe-server/src/builder.rs:383-393 | after shutdown, in every later state, no issued token is live |
| `Sessions.CloseAgain` | ironsbe-server/src/builder.rs:394-407 | closing a closed session changes nothing, whatever happened in between |
| `Sessions.CloseFreesOne` | ironsbe-server/src/builder.rs:394-407 | closing frees one slot if the session was open and none otherwise |
| `Sessions.ClosedForGood` | ironsbe-server/src/builder.rs:394-407 | a closed session never comes back in the run |
| `Sessions.BroadcastReaches` | ironsbe-server/src/builder.rs:408-418 | a broadcast reaches exactly the open sessions whose receiver is there, once |
| `Sessions.SendReaches` | ironsbe-server/src/builder.rs:419-431 | a directed message reaches exactly its session, if open and listening |
| `Sessions.SessionManager.constructor` | ironsbe-server/src/session.rs:30-35 | no session, identifiers from 1 |
| `Sessions.SessionManager.CreateSession` | ironsbe-server/src/session.rs:38-55 | takes the next identifier and files the session under it |
| `Sessions.SessionManager.CloseSession` | ironsbe-server/src/session.rs:58-60 | removes the session and gives it back if there was one |
| `Sessions.Server.constructor` | ironsbe-server/src/builder.rs:119-153 | an empty registry |
| `Sessions.Server.HandleConnection` | ironsbe-server/src/builder.rs:307-342 | refuses at the maximum, else registers session, token and sender |
| `Sessions.Server.HandleCommand` | ironsbe-server/src/builder.rs:381-432 | carries out each command; only shutdown ends the run loop |
| `Sessions.Server.HandleBroadcast` | ironsbe-server/src/builder.rs:408-418 | the retain loop pushes to every sender and keeps those that took the message |
| `Sessions.Server.Send` | ironsbe-server/src/builder.rs:549-553 | a responder reaches its own session unless the receiver is gone |
| `Sessions.Server.SendToOther` | ironsbe-server/src/builder.rs:555-566 | a responder reaches another session exactly if it is registered and its receiver is there |
| `Broadcast.ReceiverIsOrderly` | ironsbe-channel/src/broadcast.rs:66-185 | over every run of sends, receives and batch receives, a receiver's output is strictly increasing, faithful to what was sent, and skips only evicted numbers |
| `Broadcast.StepOrderly` | ironsbe-channel/src/broadcast.rs:66-172 | every step keeps this |
| `Broadcast.EvictionEndsIff` | ironsbe-channel/src/broadcast.rs:71-74 | the eviction loop ends if and only if the capacity is above 0 |
| `Broadcast.LaggardIsStuck` | ironsbe-channel/src/broadcast.rs:142-154 | single receives never give a receiver behind the window anything again, while a batch receive does |
| `Broadcast.BroadcastState.constructor` | ironsbe-channel/src/broadcast.rs:47-57 | nothing was sent |
| `Broadcast.BroadcastState.Send` | ironsbe-channel/src/broadcast.rs:66-79 | the buffer is exactly the last sends up to capacity, numbered consecutively |
| `Broadcast.BroadcastState.Subscribe` | ironsbe-channel/src/broadcast.rs:85-91 | starts at the next send |
| `Broadcast.BroadcastState.SubscribeFromStart` | ironsbe-channel/src/broadcast.rs:95-104 | starts at the oldest send kept |
| `Broadcast.BroadcastReceiver.Recv` | ironsbe-channel/src/broadcast.rs:142-154 | gives the send it waits for, if it is kept |
| `Broadcast.BroadcastReceiver.RecvAll` | ironsbe-channel/src/broadcast.rs:160-172 | gives every kept send from its place on |
| `Broadcast.BroadcastReceiver.Lag` | ironsbe-channel/src/broadcast.rs:182-185 | the sends it has not seen, evicted ones included |
| `Arbitration.AccountingExact` | ironsbe-transport/src/udp/multicast.rs:105-116 | over every run of arrivals, the numbers below the expected one are split between those that advanced it and the reported gaps, ascending and disjoint, if and only if the largest 64-bit number is not among the arrivals |
| `Arbitration.FeedOrderly` | ironsbe-transport/src/udp/multicast.rs:198-221 | over every run of packets: acceptances of one number lie more than a cacheful apart, and the accounting holds behind the deduplication |
| `Arbitration.AcceptedOnce` | ironsbe-transport/src/udp/multicast.rs:84-96 | over every run, each number is accepted once if and only if every repetition arrives before a cacheful of new numbers came after its first arrival |
| `Arbitration.ForgottenIsAcceptedAgain` | ironsbe-transport/src/udp/multicast.rs:84-96 | for every cache size a run that accepts a number twice |
| `Arbitration.FeedArbitrator.constructor` | ironsbe-transport/src/udp/multicast.rs:69-75 | nothing accepted, number 1 expected |
| `Arbitration.FeedArbitrator.ShouldProcess` | ironsbe-transport/src/udp/multicast.rs:84-96 | accepts exactly the numbers not among the last accepted ones it remembers, and tracks the highest |
| `Arbitration.FeedArbitrator.CheckGap` | ironsbe-transport/src/udp/multicast.rs:105-116 | reports the numbers from the expected one up to the arrival |
| `Arbitration.FeedArbitrator.Reset` | ironsbe-transport/src/udp/multicast.rs:131-135 | back to a fresh arbitrator |
| `Arbitration.FeedArbitrator.ProcessPacket` | ironsbe-transport/src/udp/multicast.rs:198-221 | drops short packets and duplicates; gap detection sees exactly what was accepted |
| `Arbitration.Independent` | ironsbe-marketdata/src/arbitration.rs:31-71 | each instrument behaves as an arbitrator of its own, however calls are interleaved |
| `Arbitration.RepeatRejected` | ironsbe-marketdata/src/arbitration.rs:31-40 | no number is accepted twice for an instrument between resets |
| `Arbitration.InstrumentArbitrator.constructor` | ironsbe-marketdata/src/arbitration.rs:16-21 | every instrument is fresh |
| `Arbitration.InstrumentArbitrator.Accept` | ironsbe-marketdata/src/arbitration.rs:31-40 | accepts exactly what exceeds the last accepted number of the instrument |
| `Arbitration.InstrumentArbitrator.FindGap` | ironsbe-marketdata/src/arbitration.rs:46-59 | reports a gap against the instrument's own expected number |
| `Arbitration.InstrumentArbitrator.Forget` | ironsbe-marketdata/src/arbitration.rs:62-65 | resets one instrument |
| `Arbitration.InstrumentArbitrator.ForgetAll` | ironsbe-marketdata/src/arbitration.rs:68-71 | resets every instrument |

## Left out

- Ring.SharedRing.Write: requires a payload below 2^32 bytes, the width of the prefix it is cast to.
- RingProtocol.CounterAccounting: counters are unbounded; the wrap of 64-bit counters after 2^64 bytes is not modelled.
- RingProtocol.DeliveredIsPrefix: about a ring whose control words lie apart from the region, see the assumptions.
- HandlerRuns.EveryUpdateAccounted: events that the bounded event channel drops are recorded as if delivered.
- Groups.MessageWithGroupRoundTrip: nested groups and variable data are not placed by the generator, so no round trip holds.
- Codec.SchemaExact: for integer and byte-array types; an enum may have too few variants for an overlap to show, so `ClearRoundTrip` gives one direction for all types.
- Codec.MembersBetween: follows the resolved schema, which ignores explicit offsets of composite members.
- Rdma.NeverOverflows: a failed verb or completion ends the run; payloads of sends in flight, which share one buffer, are not claimed.
- Framing.SmoltcpSession.Poll: the transmit path and decoding after an oversize prefix are not modelled.
- Framing.UringConnection.Recv: end of stream is not modelled.
- Sessions.EveryRunKeeps: safety only; whether a task's own `CloseSession` arrives is not claimed, since it is sent with a droppable `try_send`.
- Broadcast.BroadcastState.Send: requires a capacity above 0, without which the call does not return; sequence numbers are unbounded; closing the channel is not followed.
- Floating point: `f32`, `f64` and `Decimal` accessors, latency and throughput statistics, reconnect backoff.
- Memory mapping, files, foreign calls, connection setup and teardown, the AF_XDP and DPDK datapaths.
- XML parsing and the text of generated code; the model starts from resolved fields and gives the accessors a meaning.
- The SPSC and MPSC channels, thin wrappers over other libraries.
- `best_n`, `spread` and `mid_price`, bit sets, schema checks on enums, sets and names are not modelled.
- Tokio `select!`, wake-ups, timeouts and tracing; session timestamps.
