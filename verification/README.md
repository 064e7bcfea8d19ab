# Ferrox, verified

A Dafny model of Ferrox, a single-instrument matching engine, and proofs that its fast data
structures agree with simple ones and that nothing is lost between the wire, the ring, the
log and a restart. `dafny verify dfyconfig.toml` checks everything.

## How it is built

| file | part of the system |
|---|---|
| `Orders.dfy` | machine integers, orders, commands, fills, errors |
| `BookSpec.dfy` | the exchange rules: each side is one sequence in price-time order |
| `BookTheorems.dfy` | what follows from the rules, for every order and every run |
| `Timestamps.dfy` | the engine never looks at timestamps, and when a rebuilt book has lost some |
| `Levels.dfy` | a side as a price map of FIFO queues, and how it flattens into a sequence |
| `Arena.dfy` | the slab with its free list and intrusive lists (`src/arena.rs`) |
| `BookRep.dfy` | the book's representation invariant and the edits that keep it |
| `OrderBook.dfy` | the book class (`src/book.rs`) |
| `MatchingEngine.dfy` | the engine class (`src/matching.rs`) |
| `Bits.dfy` | bitwise AND, power-of-two masks, 8-byte alignment |
| `Ring.dfy` | the lock-free ring as a transition system (`src/ring.rs`) |
| `Pipeline.dfy` | the client and matching threads around the ring (`src/gateway.rs`) |
| `Codec.dfy` | the wire format and the framing of a client stream (`src/protocol.rs`) |
| `Walks.dfy`, `WalFormat.dfy`, `Wal.dfy` | the write-ahead log, its scan and its iterator (`src/wal.rs`) |
| `Recovery.dfy` | snapshots and recovery (`src/snapshot.rs`, `src/recovery.rs`) |
| `Persistence.dfy` | whole runs with logging, snapshots, crashes and restarts |
| `Gateway.dfy` | the matching thread's work on one command, tied to those runs |
| `EndToEnd.dfy` | from a client's bytes to the log, through framing, ring and matching thread |

The book is proved in three layers. `Arena` methods edit an array in place and are specified
on the array read as a sequence. `OrderBook` methods are specified on ghost maps from price
to FIFO queue; their `Valid()` holds the whole-heap invariant (slots partitioned between the
free list and the level lists, mirrored links, index a bijection, counts, cached best prices,
and each level's quantity counter equal to its queue's sum modulo 2^64, since release builds
wrap). `MatchingEngine` methods are specified by the functions of `BookSpec`, so every
theorem about `BookSpec` is a theorem about the engine.

The invariant is handed from one state to the next as a token: `BookReps.RepOk` says the same
as `BookReps.RepBody`, but the solver only unfolds it where `BookReps.Unseal` asks for it.

## Findings

- A refused order can have traded. The duplicate-id check comes after matching, so a refusal
  leaves the book unchanged exactly when the order does not cross the opposite best price
  (`RefusedAddKeepsBook`, `DuplicateAfterTrade`).
- Recovery is not bit-exact, although `docs/SYSTEM_DESIGN.md:344` promises it. Timestamps are
  not logged. Recovery gives the live book back except that the orders which came to rest
  behind the snapshot lose their timestamps, so it is exact if and only if none of those still
  rests with one (`RecoveryIsExactIff`; by the clock, `RecoveryIsExactIffOld`). A snapshot of
  the whole log loses nothing (`FullSnapshotIsExact`); without a snapshot every resting
  timestamp is lost (`FreshReplayIsExactIff`, `TimestampsAreLost`). Nothing else is affected:
  the only answer with a timestamp in it is the order that a cancel returns
  (`StepIgnoresTimestamps`).
- Bytes behind the write position can come back. The open scan does not clear them, so a
  re-open, whatever size the file is opened with, restores the write position and count
  exactly when no record is readable there (`ReopenExactIff`); `StaleRecordReturns` gives a
  family of files where an old record reappears after one append. Logs with a zero tail are not affected, and append, growth,
  truncation and re-open keep the zero tail.
- The truncation branch of recovery cannot be reached: right after opening, iteration stops
  where the scan stopped and never meets a damaged record (`IterateScanned`).
- A logged order of zero quantity makes recovery fail, exactly when it lies behind the
  snapshot (`RecoveryNeedsPositive`). The gateway never logs one: whatever bytes a client
  sends, its decoder lets none through (`FramesAreLoggable`).

## Model

| member | source | states |
|---|---|---|
| BookTheorems.PriceTimePriority | src/matching.rs:79-152 | fills are against a prefix of the opposite side in price-time order at maker prices, all but the last complete; the survivors are the suffix; matching stops exactly when the taker is spent, prices no longer cross, or the next maker is the taker's own |
| BookTheorems.MatchMovesQuantity | src/matching.rs:97-113 | what the opposite side loses is exactly the quantity filled |
| BookTheorems.AddConservesQuantity | src/matching.rs:66-172 | taker quantity = filled + resting + discarded by self-trade prevention; both sides' totals change by exactly that |
| BookTheorems.LeftoverDoesNotCross | src/matching.rs:81-85 | what is left of a taker after matching no longer crosses |
| BookTheorems.InsertShape | src/book.rs:59-91 | an inserted order goes behind every price at least as good and before every worse one |
| BookTheorems.StepKeepsInv | src/matching.rs:66-176 | every call, refused or not, keeps the book sorted, uncrossed, duplicate-free, positive and within capacity |
| BookTheorems.RunKeepsInv | src/matching.rs:537-553 | so does every run of commands |
| BookTheorems.ArenaFullOnlyUntouched | src/matching.rs:154-165 | the capacity refusal never follows a fill and changes nothing |
| BookTheorems.AddErrors | src/matching.rs:66-172 | the only three errors of an add, and exactly when each is returned |
| BookTheorems.RefusedAddKeepsBook | src/matching.rs:154-160 | a refused add leaves the book unchanged if and only if it does not cross |
| BookTheorems.DuplicateAfterTrade | src/book.rs:60-62 | a concrete order that trades and is then refused |
| BookTheorems.CancelUndoesInsert | src/book.rs:93-138 | cancelling an inserted order gives back the book and the order |
| BookTheorems.CancelTakesOne | src/book.rs:93-138 | a cancel succeeds exactly for resting ids and removes that id and no other |
| BookTheorems.StepCancels | src/matching.rs:174-176 | what a cancel command does, in full: the resting order with the id is answered and cut out of its side, nothing else moves; without one, OrderNotFound and the same book |
| BookTheorems.AddOutcome | src/matching.rs:66-172 | what an add does, in full: its fills and survivors, the answered id and status, exactly what comes to rest and where; a refusal's reason, and that nothing rested |
| BookTheorems.StepAdds | src/recovery.rs:78-87 | the same of a new-order command |
| BookTheorems.AnswerAt | src/recovery.rs:78-87 | answer i of a run is the answer of the book that the first i commands left |
| BookTheorems.RestoreListing | src/matching.rs:178-188 | restoring the listing of a book gives the same book |
| BookTheorems.InsertAllIff | src/matching.rs:178-188 | restoring any list of orders succeeds if and only if ids are distinct and there is room, and then the book is well formed and holds exactly those orders |
| BookTheorems.InsertAllError | src/matching.rs:178-188 | otherwise the error is that of the first order that does not fit |
| Timestamps.StepRestamps | src/matching.rs:66-176 | changing the timestamps of a book and a command in any way commutes with every step; the answer is the same up to the timestamp of a cancelled order |
| Timestamps.StepIgnoresTimestamps | src/protocol.rs:140-147 | in particular erasing them: the same answer, up to the timestamp in the order that a cancel returns |
| Timestamps.ReplayIgnoresTimestamps | src/recovery.rs:78-87 | and with every replay |
| Timestamps.ReplayFromAnyPoint | src/recovery.rs:46-73 | a book that stands for the first k commands, carried over the rest read back from the log, stands for all of them |
| Timestamps.ReplayForgets | src/recovery.rs:58-73 | replaying commands read back from the log erases exactly the timestamps of the orders that came to rest in them |
| Timestamps.ReplayIsExactIff | docs/SYSTEM_DESIGN.md:307-318 | from any starting book, replay rebuilds the live book exactly if and only if no order that came to rest meanwhile rests with a timestamp |
| Timestamps.ReplayIsExactIffOld | docs/SYSTEM_DESIGN.md:307-318 | the same by the clock: if and only if nothing stamped after the starting point rests |
| Timestamps.FreshReplayIsExactIff | docs/SYSTEM_DESIGN.md:307-318 | from an empty book: replay erases every timestamp, so it is exact if and only if no resting order has one |
| Timestamps.TimestampsAreLost | docs/SYSTEM_DESIGN.md:344 | a one-command log whose replay differs from the live book |
| Levels.BestKey | src/book.rs:125-133 | the key that is better than every other: last for bids, first for asks |
| Levels.AppendFlattens | src/book.rs:79-84 | appending to the queue at a price is stable insertion into the flattened side |
| Levels.TakeFlattens | src/book.rs:188-200 | filling the front of the best queue fills the front of the flattened side |
| Levels.RemoveFlattens | src/book.rs:107-120 | deleting from a queue deletes the element with that id from the flattened side |
| Levels.FlattenDistinct | src/book.rs:220-243 | flattening gives a side in priority order with distinct ids |
| Arenas.LinkBackExtends | src/arena.rs:160-176 | linking a slot at the back gives a list longer by it, links mirrored, no other node changed |
| Arenas.UnlinkShortens | src/arena.rs:200-219 | unlinking position k gives the list without it, links mirrored, no other node changed |
| Arenas.Arena.constructor | src/arena.rs:110-123 | all slots are free, in order |
| Arenas.Arena.Alloc | src/arena.rs:133-143 | takes the head of the free list, and fails exactly when it is empty |
| Arenas.Arena.Dealloc | src/arena.rs:145-150 | puts a slot at the head of the free list; the count cannot underflow |
| Arenas.Arena.PushBack | src/arena.rs:160-176 | the level's list grows by the slot at its back; orders and free list are untouched |
| Arenas.Arena.PopFront | src/arena.rs:178-198 | the level's list loses its first slot, or nothing happens when it is empty |
| Arenas.Arena.Remove | src/arena.rs:200-219 | the level's list loses the slot, wherever it is |
| BookReps.InsertedRep | src/book.rs:59-91 | the whole invariant survives taking a free slot and linking it behind its level |
| BookReps.ReducedRep | src/book.rs:177-190 | the whole invariant survives a partial fill |
| BookReps.ConsumedRep | src/book.rs:188-200 | the whole invariant survives a fill that unlinks and frees the front order |
| BookReps.CancelledRep | src/book.rs:103-120 | the whole invariant survives unlinking and freeing an order in the middle |
| BookReps.Partition | src/book.rs:89 | every slot is free or holds exactly one indexed order, never both; the index is injective |
| BookReps.IndexKnows | src/book.rs:103-105 | the index knows exactly the ids in the queues |
| BookReps.SidesApart | src/book.rs:60-62 | no id rests on both sides |
| BookReps.BestAfterPut | src/book.rs:245-254 | how the best price follows an edit of one level |
| OrderBooks.OrderBook.constructor | src/book.rs:36-45 | an empty, valid book |
| OrderBooks.OrderBook.InsertOrder | src/book.rs:59-91 | duplicate, full, or appended to the queue at its price; nothing else changes |
| OrderBooks.OrderBook.CancelOrder | src/book.rs:93-138 | not found, or exactly that order taken out of its queue and returned |
| OrderBooks.OrderBook.PeekFront | src/book.rs:140-150 | the first order of the queue at a price, if there is one |
| OrderBooks.OrderBook.ReduceFrontQuantity | src/book.rs:152-218 | both errors, or the front order filled and dropped when used up |
| OrderBooks.OrderBook.WalkFrom | src/book.rs:226-231 | walking the links from the head yields the queue |
| OrderBooks.OrderBook.SideOrders | src/book.rs:224-240 | one side best price first, first in first out |
| OrderBooks.OrderBook.AllRestingOrders | src/book.rs:220-243 | asks from the best price, then bids from the best price |
| OrderBooks.OrderBook.SideShape | src/book.rs:47-53 | the cached best price is the best key of the side's queues |
| OrderBooks.OrderBook.ViewWellFormed | src/book.rs:55-57 | a valid book's view is well formed, and the index counts it |
| Engines.MatchingEngine.constructor | src/matching.rs:55-60 | a new engine means the empty book |
| Engines.MatchingEngine.BestMaker | src/matching.rs:82-90 | the order at the best cached price is the head of the opposite side |
| Engines.MatchingEngine.FillBest | src/matching.rs:101-103 | filling it fills the head of the opposite side; the book errors are unreachable |
| Engines.MatchingEngine.Turn | src/matching.rs:82-113 | one turn of the loop makes the specified fill, or none for the specified reason |
| Engines.MatchingEngine.MatchLoop | src/matching.rs:79-152 | the loop terminates with the specified fills, remainder and opposite side |
| Engines.MatchingEngine.Rest | src/matching.rs:159 | rests or refuses exactly as specified |
| Engines.MatchingEngine.AddOrder | src/matching.rs:66-172 | same book and same answer as the specification |
| Engines.MatchingEngine.CancelOrder | src/matching.rs:174-176 | the resting order with the id is returned and cut out of its side, or OrderNotFound and nothing changes |
| Engines.MatchingEngine.Apply | src/recovery.rs:78-87 | same for either command |
| Engines.RestoreFromOrders | src/matching.rs:178-188 | inserts in order and stops at the first refusal, as specified |
| Engines.RestoredTwin | src/matching.rs:178-188 | an engine restored from another one's listing has the same book, in its own slots |
| Engines.AnswersAlike | src/matching.rs:66-176 | two engines with the same book, whatever their slots and free lists, answer every list of commands alike |
| Engines.RestoredAnswersAlike | src/snapshot.rs:254-266 | so no later commands can tell a restored engine from the original |
| Bits.MaskIsMod | src/ring.rs:104 | masking with a power of two minus one keeps the remainder |
| Bits.AlignUp | src/wal.rs:16-18 | the least multiple of 8 not below the argument |
| Rings.WrapMask | src/ring.rs:104 | masking a cursor that wrapped at 2^64 selects the slot of its unbounded position |
| Rings.CachedTests | src/ring.rs:92-97 | the wrapped cursor comparisons mean full and empty, as far as the side has seen |
| Rings.NextHolds | src/ring.rs:89-154 | every load, slot access and store of push and pop keeps the ring invariant |
| Rings.EveryRunHolds | src/ring.rs:89-154 | it holds in every state of every interleaving |
| Rings.PoppedIsPrefix | src/ring.rs:89-154 | what was popped is a prefix of what was pushed, and the queue never exceeds its capacity |
| Rings.RefinesQueue | src/ring.rs:89-154 | each step is a step of a bounded FIFO queue or leaves it alone |
| Rings.FullMeansFull | src/ring.rs:92-97 | Full is answered exactly when the loaded tail is a capacity behind; with the latest tail, exactly when the queue is full |
| Rings.EmptyMeansEmpty | src/ring.rs:134-139 | the same for Empty |
| Rings.PushCompletes | src/ring.rs:89-110 | from every state with room, a push can complete in three or four steps and puts its value at the back |
| Rings.PopCompletes | src/ring.rs:131-151 | from every state with something queued, a pop can complete and takes the value at the front |
| Rings.WriteIsSafe | src/ring.rs:99-105 | the producer writes only vacant slots that the consumer has finished with, as acquired through the tail |
| Rings.ReadIsSafe | src/ring.rs:141-146 | the consumer reads only written slots, holding the oldest value, as acquired through the head |
| Rings.Drop | src/ring.rs:58-76 | the drop loop moves out exactly the values never popped, once each, and empties every slot |
| Pipeline.StepHolds | src/gateway.rs:120-222 | every step of either thread keeps the pipeline invariant |
| Pipeline.EveryRunHolds | src/gateway.rs:180-222 | it holds in every state of every interleaving |
| Pipeline.NothingLost | src/gateway.rs:203-219 | commands are processed once each in order; the matching thread exits only after the client closed and everything accepted was processed |
| Pipeline.CanFinish | src/gateway.rs:180-222 | nothing gets stuck: from every reachable state both threads can run to the end, all accepted commands processed |
| Codec.FromToLE | src/protocol.rs:63-70 | reading back n little-endian bytes gives the number |
| Codec.ToFromLE | src/protocol.rs:94-100 | writing back what was read gives the bytes |
| Codec.ByteOfLE | src/protocol.rs:94-100 | byte i is the coefficient of 256^i |
| Codec.EncodeNewOrder | src/protocol.rs:150-165 | too short, or the message's bytes in place and the rest of the buffer untouched |
| Codec.EncodeCancelOrder | src/protocol.rs:175-186 | the same for a cancel |
| Codec.EncodeExecutionReport | src/protocol.rs:207-228 | the same for an execution report |
| Codec.DecodeEncoded | src/protocol.rs:125-205 | decoding an encoded command gives it back without its timestamp over the whole integer range, and refuses exactly zero quantity |
| Codec.ReencodeDecoded | src/protocol.rs:188-205 | any accepted full-size message re-encodes to itself, reserved bytes aside |
| Codec.ReportRoundTrip | src/protocol.rs:207-243 | decoding an encoded report gives its fields back |
| Codec.OrderMeans | src/protocol.rs:125-148 | byte by byte, which messages of type 1 are orders, which order each is, and which error the others give |
| Codec.OtherMeans | src/protocol.rs:167-205 | messages of type 2 are cancels of the id in bytes 8 to 16; every other type is unknown |
| Codec.SizeMeans | src/gateway.rs:99-100 | 40 bytes for type 1, 16 for type 2, no other type |
| Codec.OrderWritten | src/protocol.rs:150-165 | the bytes of an encoded order, one by one |
| Codec.CancelWritten | src/protocol.rs:175-186 | the bytes of an encoded cancel |
| Codec.ReportWritten | src/protocol.rs:207-228 | the bytes of an encoded report |
| Codec.ReportMeans | src/protocol.rs:230-243 | which fields a report's bytes hold |
| Codec.ReadClient | src/gateway.rs:91-114 | the client loop cuts a stream into commands as the framing function does |
| Codec.FramesMean | src/gateway.rs:91-114 | any stream is read as messages one behind the other from its start, and the loop stops for the reason that lies behind them |
| Codec.FramesOfStream | src/gateway.rs:91-114 | concatenated commands, followed by any cut-off message, are read back exactly |
| Codec.UniquelyDecodable | src/gateway.rs:91-114 | equal bytes mean equal commands, timestamps aside |
| Codec.FramesAreLoggable | src/protocol.rs:136-138 | whatever bytes a client sends, no order of zero quantity is read from them |
| Walks.ScanChain | src/wal.rs:206-245 | a scan passes known records and stops behind them exactly if nothing is readable there |
| Walks.WalkChain | src/wal.rs:259-302 | the iterator finds known records once each, in order, numbered |
| Walks.WalkSkips | src/wal.rs:292-295 | records up to the start are passed over |
| Walks.WalkScanned | src/wal.rs:259-302 | up to where the scan stopped the iterator meets no damage and yields one item per later record |
| Walks.WalkThrough | src/wal.rs:259-302 | known records, numbered on from the start, and then whatever the iterator finds behind them |
| WalFormat.ParseFrame | src/wal.rs:132-147 | a written record is read back under every limit that covers it |
| WalFormat.ParseMeans | src/wal.rs:206-245 | read off the bytes: a record is a length that fits and a matching checksum; an end, a cut-off record and a damaged one are the other three cases |
| WalFormat.ScanMeans | src/wal.rs:206-245 | any file: the scan finds the records with matching checksums one behind the other from its start, and stops where there is none |
| WalFormat.ItemsMean | src/wal.rs:259-302 | and iteration yields exactly the payloads of those, decoded and numbered |
| WalFormat.ChecksumStops | src/wal.rs:230-236 | behind a log, a mismatching checksum ends the scan exactly there |
| WalFormat.IterateDamaged | src/wal.rs:270-287 | an iterator that looks past a log reports a cut-off or damaged record at its offset, after all commands |
| WalFormat.ScanLog | src/wal.rs:206-245 | scanning a log with a zero tail finds its end and its length |
| WalFormat.ScanExactIff | src/wal.rs:206-245 | with anything behind it, at least the log, and exactly the log if and only if no record with a matching checksum lies there |
| WalFormat.IterateLog | src/wal.rs:259-302 | iterating from record k yields exactly the later commands with their numbers |
| WalFormat.IterateZeroQuantity | src/wal.rs:297-300 | whatever the commands of a log, iteration yields each of them in place, an order of zero quantity as a protocol error |
| WalFormat.IterateScanned | src/wal.rs:206-302 | for every file, no corruption or truncation is reported right after open |
| WalFormat.DamagedTail | src/wal.rs:206-302 | overwriting a log from an offset on loses no record that ended before it |
| Wals.AppendKeepsLog | src/wal.rs:121-153 | appending extends the log by one command, growing or not, zero tail kept |
| Wals.AppendKeepsRecords | src/wal.rs:121-153 | appending keeps the records of a log whatever bytes lie behind it |
| Wals.ReopenKeepsLog | src/wal.rs:80-118 | re-opening restores position, count and log |
| Wals.TruncateKeepsLog | src/wal.rs:176-185 | cutting back to j records leaves their log, zero tail kept |
| Wals.OpenExactIff | src/wal.rs:80-118 | opening a file with a log at its front finds at least that log, and exactly it if and only if no record is readable behind it |
| Wals.ReopenExactIff | src/wal.rs:242-243 | re-opening at any initial size restores position and count if and only if no record is readable at the write position of the extended file |
| Wals.StaleRecordReturns | src/wal.rs:242-243 | a family of files where an old record reappears after one append, whatever sizes the file is opened with |
| Wals.Wal.Open | src/wal.rs:80-118 | the file extended with zeros, and scanned |
| Wals.Wal.ScanToEnd | src/wal.rs:206-245 | the loop computes the scan |
| Wals.Wal.EnsureCapacity | src/wal.rs:191-204 | doubling or more, zeros behind |
| Wals.GrownMeans | src/wal.rs:191-204 | a file too small grows to twice its size or to what is needed, whichever is more, with zeros |
| Wals.Wal.Append | src/wal.rs:121-153 | writes the record at the write position and returns its number |
| Wals.Wal.TruncateTo | src/wal.rs:176-185 | zeroes what it gives up |
| Wals.WalIterator.Next | src/wal.rs:259-302 | yields the next find of the walk and moves on, except at damage |
| Recovery.Capture | src/snapshot.rs:53-66 | the listing, cached best prices and checksum of the engine's book |
| Recovery.CaptureMeans | src/snapshot.rs:53-66 | a snapshot holds all resting orders, asks first, the record count, the highest bid and the lowest ask |
| Recovery.CaptureAndRestore | src/snapshot.rs:233-251 | capturing and restoring gives the same book, and cached best prices equal to those of the snapshot |
| Recovery.LoadLatest | src/snapshot.rs:105-119 | the newest readable snapshot whose checksum matches its orders, or none if there is none |
| Recovery.CaptureRestores | src/snapshot.rs:122-125 | a captured snapshot is intact and restores to the captured book |
| Recovery.ReplayLog | src/recovery.rs:56-73 | replaying a log just opened gives the specified book or error |
| Recovery.ReplayRest | src/recovery.rs:58-73 | the replay loop computes the specified replay; its truncation branch is unreachable |
| Recovery.RecoverFrom | src/recovery.rs:38-76 | engine and log after recovery are the specified ones, errors included |
| Recovery.Recover | src/recovery.rs:46-53 | the same from the newest intact snapshot |
| Recovery.RecoverReadable | src/recovery.rs:38-76 | for any file: a log with no readable record behind it is replayed on the starting point, all of it and nothing else, and its end and count are kept |
| Recovery.RecoverTornTail | src/recovery.rs:38-76 | a log overwritten from an offset on: recovery gives the book and the count of the intact records if nothing behind them is readable |
| Recovery.RecoverLog | src/recovery.rs:38-76 | from any snapshot that covers a prefix, recovery gives the book of the whole log, timestamps aside, and keeps the log |
| Recovery.RecoveryIsExactIff | docs/SYSTEM_DESIGN.md:344 | recovery is exact if and only if no order that came to rest behind the snapshot rests with a timestamp; otherwise exactly those timestamps are lost |
| Recovery.RecoveryIsExactIffOld | docs/SYSTEM_DESIGN.md:344 | the same by the clock: if and only if all that rests is from before the snapshot |
| Recovery.FullSnapshotIsExact | src/recovery.rs:46-53 | recovery from a snapshot of the whole log is exact |
| Recovery.RecoveryNeedsPositive | src/recovery.rs:70 | recovery fails exactly when an order of zero quantity lies behind the starting point, and with that error |
| Recovery.RecoveryRefusesSnapshot | src/recovery.rs:46-50 | recovery fails on the snapshot exactly when its ids repeat or it holds more than the capacity |
| Recovery.RecoverMeans | src/recovery.rs:38-76 | any file: what recovery replays on the starting point are the decoded payloads of records with matching checksums, and no other bytes |
| Persistence.NextHolds | src/gateway.rs:144-200 | logging a command that the decoder lets through, applying, snapshots, lost snapshots, crashes and restarts each keep the system invariant |
| Persistence.EveryRunHolds | src/gateway.rs:144-200 | in every run with any number of crashes: the log is the history, the live book is its replay up to the one pending command, every snapshot is the replay of its prefix |
| Persistence.EveryRestartRecovers | src/gateway.rs:231-246 | no restart of any run falls back to a fresh engine, and each recovers the whole history |
| Persistence.SameAnswers | docs/SYSTEM_DESIGN.md:307-318 | books equal up to timestamps answer every later command alike |
| Gateway.SendReports | src/gateway.rs:152-157 | one report per fill under consecutive, wrapping sequence numbers |
| Gateway.ReportsMean | src/gateway.rs:148-162 | an accepted order is reported fill by fill, in order, under the next numbers and with its timestamp; a cancel or a refusal is not reported |
| Gateway.Report | src/gateway.rs:148-162 | sends those reports and moves the sequence number on by as many |
| Gateway.ProcessCommand | src/gateway.rs:135-164 | logs, then applies, then reports |
| Gateway.ServeCommand | src/gateway.rs:180-201 | one turn of the matching loop is two or three steps of the persistent system; the sequence number moves on by the reports sent |
| Gateway.ServeAll | src/gateway.rs:174-201 | over any list of commands the reports are exactly the executions, numbered 1, 2, 3 and so on, and each command is one service of the persistent system |
| Gateway.ExecutionsAt | src/gateway.rs:150-156 | the executions of an accepted order are its fills, behind those of all earlier commands |
| EndToEnd.ServedIsReady | src/gateway.rs:180-201 | serving a decoded command extends some run of the persistent system by it |
| EndToEnd.EveryRunHolds | src/gateway.rs:84-222 | in every interleaving of client and matching thread, what is accepted comes from the stream in order and what is processed is what was logged |
| EndToEnd.StreamReachesLog | src/gateway.rs:84-284 | at every moment the log holds all earlier commands and then the processed ones, and the book agrees with them; once the matching thread has exited these are exactly the commands of the client's stream |
| EndToEnd.SessionCanFinish | src/gateway.rs:84-284 | from every state of every session, the session can run to its end with the whole stream in the log |

## Left out

- TCP, UDP, multicast and the clock: reports and snapshots are returned, the client's bytes and timestamps are arguments.
- The mmap, file, rename and flush calls and their errors: a file is a byte sequence that grows with zeros, and appends succeed.
- CRC32 and bincode: any function from bytes, or from orders, to 32-bit numbers; a snapshot file is either unreadable or holds its snapshot.
- Log positions and record counts are unbounded numbers; files of 2^64 bytes are not modelled. The ring's cursors are 64 bits wide.
- Engines.MatchingEngine.MatchLoop: the source's two mirrored loops are one loop whose side is the taker's.
- Recovery when the log holds fewer records than the snapshot counted.
- Hardware memory models beyond stale acquire loads: slot accesses are atomic steps, justified by the race freedom of `Rings.WriteIsSafe` and `Rings.ReadIsSafe`. That a session ends under every fair schedule is not proved, only that it can end from every state.
- Crashes in the middle of a session of `EndToEnd`: there a command is served in one step. A crash between its logging and its applying is a run of `Persistence`, where they are two.
- Snapshot file names and directory listing: the list of files is an argument, oldest first.
- The ring pseudo-code of `docs/SYSTEM_DESIGN.md` section 6.2 keeps masked cursors and a spare slot; the model follows `src/ring.rs`.
- `src/main.rs`, `examples/`, `benches/`, formatting and error conversions, cache-line layout and buffer reuse.
