# Verified models of the node's self-contained machinery

Dafny models of ten components of the node, with the properties their correctness rests on. The code
itself only spot-checks these properties at run time, in `SanityCheck`, `CheckAddrman` and asserts.

- **UTXO cache stack** (`Coins`, `CoinsCache`). Write-back caches of any depth behave as one plain map per level.
- **Inventory request tracker** (`InvAnnouncements`, `InvGroups`, `InvSpec`, `InvTracker`). The tracker answers
  global questions by looking at neighbours in sort order; those answers are right, and the tracker refines a
  specification that has no selection states at all.
- **Script-check thread pool** (`CheckQueue`). A state machine with one atomic step per critical section or check,
  any number of workers, one master, two condition variables, spurious wake-ups, stops and new starts.
- **Address manager** (`AddrBook`, `AddrBuckets`, `AddrMoves`, `AddrMan`, `AddrCheck`, `AddrRuns`,
  `AddrFile`, `AddrRoundTrip`).
  Six overlapping structures agree after every operation; the self-check is characterised exactly; the file
  format loses nothing but the ids, the random order and the times of the last attempts.
- **Two-pass header sync** (`HeaderChains`, `HeadersSync`). What is handed out, when, and that an honest replay
  always succeeds.
- **Skip links over the block tree** (`SkipHeights`, `BlockTree`, `ActiveChain`). The fast walks equal the plain ones.
- **Cuckoo cache** (`CuckooSlots`, `CuckooCache`). Displacement loses at most one element; the epoch heuristic
  has a proved load bound.
- **256-bit arithmetic, compact targets, block proof** (`Bits`, `Limbs`, `WideArith`, `WideShift`, `WideDivide`,
  `Targets`, `CompactForms`). Limb loops against integer arithmetic, for any number of limbs.
- **CashAddr** (`CashAddrPoly`, `CashAddr`, `CashAddrField`, `CashAddrTables`, `CashAddrStrings`). The checksum as a
  polynomial remainder, the errors it detects, and the string format.
- **Base58** (`Radix`, `Base58Sizes`, `Base58Tables`, `Base58`, `Base58Check`). In-place radix conversion, in both directions.

Hashes, salts, the difficulty rule, the work of a target in the header sync, and address classification are function
parameters. Clocks are parameters. Random choices and the iteration order of tables are parameters or arbitrary choices, so
every result holds for all of them. `dafny verify dfyconfig.toml` checks the whole project.

Where the code differs from its comments, or does what a caller may not expect, the model follows the code:

- In `insert` of the cuckoo cache the comment says that the first displacement goes to the first of the eight places.
  The search for an invalid location gives 8, and 8 plus 1 masked to three bits is 1, so it goes to the second.
- The epoch size of the cuckoo cache is described as 45 percent of the slots. The product is computed in 32 bits and
  wraps for more than 95443717 slots; `CuckooCache.EpochSizeMeant` gives the exact condition.
- `SpendCoin` also answers true for an entry that is cached but already spent; the contract says exactly when it answers true.
- A throwing `AddCoin` leaves the memory accounting off by the old coin's usage, if that is not zero.
- A cashaddr string with a valid checksum and fewer than eight symbols after its prefix makes the final slice end
  before its beginning. `c:qvdy2z3` is one. The model keeps this as a separate outcome, `TooShort`, which is the
  result if and only if the string verifies with fewer than eight characters there.
- A stop of the check queue leaves the queue and the count of outstanding checks as they are, and a new start resets the
  status and the thread counts only, so that the next answer is also about the checks left over (`CheckQueue.LeftoversDecide`).
- In `DecodeBase58` a negative limit does not refuse the empty result.

## Model

| member | source | states |
|---|---|---|
| Coins.WriteEntryEffect | src/coins.cpp:225-299 | One dirty child entry with legal flags never reaches the "FRESH flag misapplied" throw, changes the parent view at its own outpoint only, and leaves the parent flags legal over the grandparent |
| Coins.WriteThrough | src/coins.cpp:225-299 | Writing a child entry down, or skipping it when it is not dirty, keeps the child view and the legality of the remaining entries |
| Coins.UsageWritten | src/coins.cpp:225-299 | Writing an entry changes the recounted memory usage by the usage of the entry that goes and of the one that comes, in every branch |
| Coins.AddKeepsFlagsIff | src/coins.cpp:104-146 | Adding keeps the flags legal if and only if overwriting was declared possible or the view had no coin there; either way the view gains exactly that coin |
| Coins.MisappliedFreshLosesSpend | src/coins.h:106-114 | What goes wrong otherwise, for every coin: one added without declaring the overwrite while the parent has it is still in the view after it is spent |
| Coins.SpendEffect | src/coins.cpp:172-192 | Spending removes exactly one coin from the view and keeps the flags legal |
| Coins.FetchEffect | src/coins.cpp:71-93 | Filling the cache from the parent does not change the view |
| Coins.DropUnflagged | src/coins.cpp:330-340 | Dropping an entry without flags does not change the view |
| Coins.ClearedEffect | src/coins.cpp:314-328 | After a sync the unspent entries agree with the parent and the view is unchanged |
| Coins.ClearFlags | src/coins.cpp:314-328 | The flag-clearing loop erases exactly the spent entries and keeps the accounting equal to a recount |
| CoinsCache.CoinsViewCache.constructor | src/coins.cpp:61-65 | A new level reports what its parent reports |
| CoinsCache.CoinsViewCache.FetchCoin | src/coins.cpp:71-93 | Fills this cache and every one below without changing what any level reports; a hit if and only if the entry was cached or the view has the coin, or, on top of the database, a spent record there is reported |
| CoinsCache.CoinsViewCache.GetCoin | src/coins.cpp:95-102 | Found if and only if the plain map has the coin, and then that very coin, unspent; no level reports anything else afterwards |
| CoinsCache.CoinsViewCache.AddCoin | src/coins.cpp:104-146 | Throws if and only if a spendable coin would overwrite an unspent cached one undeclared; the new view in every other case, scripts that start with the byte 0x6a or exceed 10000 bytes changing nothing; the flags stay legal if and only if the overwrite was declared or the view had no coin; on the throwing path the view is unchanged and the accounting stays right if and only if the old script has at most 28 bytes |
| CoinsCache.CoinsViewCache.SpendCoin | src/coins.cpp:172-192 | The view loses exactly this coin, which is moved out; true if and only if the view has it or an entry is cached, spent or not, or, on top of the database, a spent record there is reported; anything but a coin of the view that is moved out is spent |
| CoinsCache.CoinsViewCache.WriteOne | src/coins.cpp:225-299 | The misapplied-FRESH exit is never taken and the view changes as for a plain map |
| CoinsCache.CoinsViewCache.BatchWrite | src/coins.cpp:225-299 | Takes over the whole child in any order: the new view is the child view |
| CoinsCache.CoinsViewCache.Flush | src/coins.cpp:301-312 | The parent view becomes the child view, which is unchanged; the cache is empty |
| CoinsCache.CoinsViewCache.Sync | src/coins.cpp:314-328 | The parent view becomes the child view, which is unchanged; exactly the spent entries leave the cache and all flags are cleared |
| CoinsCache.CoinsViewCache.Uncache | src/coins.cpp:330-340 | Drops the entry if and only if it has no flag; no level reports anything else |
| CoinsCache.CoinsViewCache.Maintain | src/coins.cpp:95-340 | Reading, uncaching, flushing or syncing at any level of the stack answers and acts as on the plain maps |
| CoinsCache.CoinsViewDB.BatchWrite | src/txdb.cpp:119-182 | The database ends as the child view whatever the order of the entries |
| CoinsCache.Step | src/coins.cpp:71-340 | One operation on a stack of any depth does to all levels what the plain maps say |
| CoinsCache.Run | src/coins.cpp:71-340 | Any run of fetch, add, spend, uncache, sync and flush, with levels pushed and popped, answers as one plain map per level; only legal flags occur |
| InvAnnouncements.SuccessorTells | src/invrequest.cpp:458-494 | From the next entry in sort order alone: whether the group has no selected announcement, whether this one is the best ready one, or whether a better one follows |
| InvAnnouncements.PredecessorTells | src/invrequest.cpp:499-518 | The previous entry alone tells which ready candidate has the highest priority |
| InvAnnouncements.NeighboursTell | src/invrequest.cpp:522-544 | The two neighbours alone tell whether an announcement is the only one of its group not completed |
| InvGroups.PromotedGood | src/invrequest.cpp:458-494 | Promotion keeps one selected announcement per group and the best one above all ready ones |
| InvGroups.RetiredGood | src/invrequest.cpp:499-518 | Leaving a state and reselecting keeps the same group invariants |
| InvTracker.InvRequestTracker.PromoteCandidateReady | src/invrequest.cpp:458-494 | What the neighbour-based promotion does to the set of announcements |
| InvTracker.InvRequestTracker.ChangeAndReselect | src/invrequest.cpp:499-518 | What the neighbour-based reselection does to the set of announcements |
| InvTracker.InvRequestTracker.IsOnlyNonCompleted | src/invrequest.cpp:522-544 | Equals the question about the whole group |
| InvTracker.InvRequestTracker.MakeCompleted | src/invrequest.cpp:553-577 | Completes one announcement, or forgets its id when only completed ones would remain; the return value says which |
| InvTracker.InvRequestTracker.SetTimePoint | src/invrequest.cpp:585-620 | Ends for any time, also going backwards, with every waiting entry in the future and every selectable one not; the expired ones are exactly the overdue requests |
| InvTracker.InvRequestTracker.Do | src/invrequest.cpp:583-812 | Every operation refines one step of the specification |
| InvTracker.InvRequestTracker.DisconnectedPeer | src/invrequest.cpp:641-681 | Leaves nothing of the peer; other announcements stay unless their group has nothing left to do |
| InvTracker.InvRequestTracker.ForgetInvId | src/invrequest.cpp:683-689 | Removes exactly the announcements of an inventory id |
| InvTracker.InvRequestTracker.ReceivedInv | src/invrequest.cpp:691-715 | Adds exactly one waiting announcement, or nothing if the peer announced it before |
| InvTracker.InvRequestTracker.GetRequestable | src/invrequest.cpp:718-749 | Returns, in announcement order, exactly the ids offered to this peer, after bringing all states up to the given time |
| InvTracker.InvRequestTracker.RequestedData | src/invrequest.cpp:751-812 | Exactly the specified request, which completes an outstanding one for the same id; a candidate is logged once in its life, anything else changes nothing |
| InvTracker.InvRequestTracker.ReceivedResponse | src/invrequest.cpp:814-824 | Exactly the specified completion of one announcement, with its group if that leaves only completed ones |
| InvTracker.InvRequestTracker.CountInFlight | src/invrequest.cpp:826-832 | The cached counter equals a recount of requested announcements |
| InvTracker.InvRequestTracker.CountCandidates | src/invrequest.cpp:834-841 | The cached counters equal a recount of candidates |
| InvTracker.InvRequestTracker.Run | src/invrequest.cpp:372-412 | Every run keeps all conditions of the sanity check, equals the same run of the specification on plain announcements, and requests no announcement twice in its life |
| InvTracker.OfferedMeans | src/invrequest.cpp:718-749 | What is offered is due, not outstanding with anyone and second in priority to no due candidate; conversely the one due candidate of strictly highest priority is offered |
| InvTracker.SomeoneIsBest | src/invrequest.cpp:372-412 | As long as a due candidate is left and nothing is outstanding, the id is offered to somebody of at least its priority |
| InvTracker.OneOffer | src/invrequest.cpp:372-412 | No id is offered to two peers |
| InvTracker.PreferredFirst | src/invrequest.cpp:141-162 | A peer without preference is offered an id only if no preferred candidate is due |
| InvTracker.HashDecides | src/invrequest.cpp:141-162 | Among candidates equally preferred, the one offered has the highest salted hash, without its lowest bit |
| CheckQueue.BatchOf | src/checkqueue.h:115-117 | The largest number, up to the batch size, that leaves as much for every other thread, and at least one |
| CheckQueue.StepInv | src/checkqueue.h:66-133 | Every atomic step of any thread keeps the invariant on counters, batches, verdict and sleeping threads |
| CheckQueue.RunInv | src/checkqueue.h:66-133 | So does every interleaving |
| CheckQueue.EveryRunAnswersRight | src/checkqueue.h:163-178 | In every interleaving, with stops and new starts, the work outstanding is what is queued plus what is held, and an uninterrupted wait answers true if and only if all checks it is about pass: those added since the last answer, or left over at a start since |
| CheckQueue.NoLostWakeUp | src/checkqueue.h:79-102 | In every run, whenever the master sleeps nothing is queued and a worker holds a batch; whenever something is queued some worker is awake |
| CheckQueue.LeftoversDecide | src/checkqueue.h:143-189 | Checks left in the queue by a stop survive a new start: the next answer is about them as well, and false if one of them fails, while failures found before are forgotten |
| CheckQueue.EffortDecreases | src/checkqueue.h:66-133 | Every step of a thread in the loop uses up a measure of the work left |
| CheckQueue.NeverStuck | src/checkqueue.h:66-133 | While the master waits, some thread can take a step |
| CheckQueue.WaitReturns | src/checkqueue.h:163-165 | Without stray wake-ups a wait is over after a number of steps known in advance, under every schedule |
| CheckQueue.StopEnds | src/checkqueue.h:180-189 | Workers told to stop have all left after a number of steps known in advance, under every schedule, and can be joined |
| AddrBook.SwappedCore | src/addrman.cpp:477-500 | Swapping two places of the random order keeps all tables in agreement |
| AddrBook.CreatedCore | src/addrman.cpp:462-475 | Creating an entry keeps all tables in agreement |
| AddrBook.DeletedCore | src/addrman.cpp:502-515 | The asserts of a deletion hold and it keeps all tables in agreement |
| AddrMoves.ClearedNewCore | src/addrman.cpp:517-533 | Clearing a slot of the new table, with deletion of the entry if that was its last reference |
| AddrMoves.EvictedCore | src/addrman.cpp:559-584 | Moving a tried entry back to the new table, whoever sits there |
| AddrMoves.MadeTriedCore | src/addrman.cpp:535-592 | Moving an entry to the tried table keeps all tables in agreement and fills the slot |
| AddrMoves.KnownIffPlaced | src/addrman.cpp:1077-1183 | An address is known if and only if some slot refers to it |
| AddrMan.AddrMan.RemoveRefs | src/addrman.cpp:535-557 | The scan over the buckets, from the entry's own one on and stopping early, removes all references |
| AddrMan.AddrMan.MakeTried | src/addrman.cpp:535-592 | Every assert on the way holds |
| AddrMan.AddrMan.AddSingle | src/addrman.cpp:594-676 | Which slot is taken, and if and only if when: a routable address, with news, not tried, below eight references, a draw divisible by two to the number of references, and a slot that is free or whose owner gives way; what every entry holds afterwards |
| AddrMan.HeardAgain | src/addrman.cpp:594-620 | What an address heard of again changes: the services are joined, the time moves to the one heard less the penalty, not below zero, if and only if that is news by more than an hour for a recent address and by more than a day otherwise |
| AddrMan.HeardFirst | src/addrman.cpp:646-676 | What is stored of an address heard of for the first time, if it gets a slot |
| AddrMan.Factor | src/addrman.cpp:636-645 | The factor of the lottery is two to the number of references |
| AddrMan.AddrMan.Add | src/addrman.cpp:740-754 | The addresses are heard of one after the other, each on the tables left by the one before; the answer is whether any was added |
| AddrMan.AddrMan.Good | src/addrman.cpp:678-738 | A success moves the entry to its tried slot, or puts it on the waiting list when the slot is taken and to be tested first and there is room; every assert on the way holds |
| AddrMan.AddrMan.Attempt | src/addrman.cpp:756-775 | Changes exactly the statistics of one entry, as `AddrMan.Tried` says; everything stays in agreement if and only if the time is not before the epoch or the address is unknown |
| AddrMan.Tried | src/addrman.cpp:756-775 | The attempt is counted as a failure if and only if asked to and something worked since the last one that was counted |
| AddrMan.AddrMan.Connected | src/addrman.cpp:913-930 | Changes exactly the time of one entry, and not within twenty minutes |
| AddrMan.AddrMan.SetServices | src/addrman.cpp:932-946 | Changes exactly the services of one entry |
| AddrMan.AddrMan.GetAddr | src/addrman.cpp:868-911 | Distinct known entries on offer, no more than the number and the percentage allowed, and all of them if there is room for one more |
| AddrMan.OfferedMeans | src/addrman.cpp:86-115 | What is on offer, in seconds and attempts: tried within the last minute, or heard of within thirty days and not from more than ten minutes ahead, not failing from the first three attempts on, and not failing ten times in a week |
| AddrMan.PickedFrom | src/addrman.cpp:868-911 | The entries on offer among the first ids of the random order are distinct, and all of them when the order is exhausted |
| AddrMan.AddrMan.ResolveOne | src/addrman.cpp:948-1027 | The tried slot of a waiting entry is always taken; from the times of both entries alone, whether it changes hands, whether the entry goes on waiting, and what that does to the tables |
| AddrMan.OwnerAnswered | src/addrman.cpp:982-984 | An owner that answered within four hours keeps its slot, and the other entry stops waiting |
| AddrMan.OwnerHasTime | src/addrman.cpp:985-999 | An owner tried within the last minute has time to answer: nothing changes and the other entry goes on waiting |
| AddrMan.ChangesHands | src/addrman.cpp:948-1027 | The slot changes hands if and only if the owner has not answered for four hours and either was tried more than a minute and less than four hours ago, or the other entry answered last more than forty minutes ago |
| AddrMan.AddrMan.ResolveCollisions | src/addrman.cpp:948-1027 | Decides once about each waiting entry, each decision on the tables left by the one before; exactly those decided to stay go on waiting |
| AddrMan.AddrMan.SelectTriedCollision | src/addrman.cpp:1029-1057 | Answers with the owner of the slot that a known entry waits for; otherwise a waiting entry that is gone is taken off the list; the look-up never fails |
| AddrMan.CollidingAt | src/addrman.cpp:1029-1057 | The slot of every entry on the waiting list that still exists is taken |
| AddrRuns.Run | src/addrman.cpp:1059-1075 | From an empty manager, any operations: the self-check finds nothing after each, a null key aside; a filled tried slot stays filled, ids are never given twice, at most ten entries wait |
| AddrBuckets.PlacesMean | src/addrman.cpp:55-84 | Where agreeing tables have every entry, in terms of the hashes themselves; no entry has more than eight references |
| AddrBuckets.NewSlotIs | src/addrman.cpp:64-84 | Bucket and position of a new entry, in terms of the hashes themselves |
| AddrBuckets.GroupIsConfined | src/addrman.cpp:55-62 | The addresses of one group occupy at most eight buckets of the tried table |
| AddrBuckets.SourceIsConfined | src/addrman.cpp:64-75 | The sources of one group reach at most 64 buckets of the new table |
| AddrCheck.CheckAddrman | src/addrman.cpp:1077-1183 | The self-check answers 0 if and only if its declarative conditions hold and the key is not null; every other code names a fault that is there, and -16 the null key alone |
| AddrCheck.CheckTried | src/addrman.cpp:1135-1152 | Passes with none lost if and only if the tried entries sit in exactly their computed slots; otherwise the code names a slot that is at fault, or an entry is lost |
| AddrCheck.CheckNew | src/addrman.cpp:1154-1177 | Passes with none lost if and only if the new slots are at computed positions and every count equals its number of slots; otherwise the code names a slot that is at fault, or an entry lacks slots |
| AddrCheck.CheckedIff | src/addrman.cpp:1077-1183 | The tables agree if and only if the self-check passes, all ids are below the id counter and no listed address lacks its entry: the two conditions it does not look at |
| AddrFile.Serialize | src/addrman.cpp:154-258 | What the file lists, for any order of the entries; its two asserts hold |
| AddrFile.Unserialize | src/addrman.cpp:260-443 | For any file at all: refused, or loaded with tables that agree. A named new entry is known unless its own slot, and when positions are restored every listed one, is held by another entry; every reference is at its own slot or a listed position; a tried slot goes to the first entry listed for it |
| AddrRoundTrip.RoundTrip | src/addrman.cpp:154-443 | Reading back what was written succeeds unless the key is null, and gives, up to renaming of ids, the same entries, slots, reference counts and counters, and passes the self-check |
| AddrRoundTrip.ReferencesHold | src/addrman.cpp:389-418 | On reading back, every reference goes to its old slot and the fallback is not used |
| AddrRoundTrip.TablesFit | src/addrman.cpp:305-318 | Agreeing tables never list more entries than the reader accepts |
| HeaderChains.ExpandCompressed | src/headerssync.h:21-49 | Dropping the previous hashes of a linked chain and restoring them alters nothing |
| HeaderChains.CommitCountIs | src/headerssync.cpp:245-257 | The number of commitments in a chain of any length, in closed form: one in every 610 heights |
| HeaderChains.CommitmentAt | src/headerssync.cpp:316-336 | The commitment found at a place is the bit of the header at the height that belongs to it, and there is one if and only if the chain gets that far |
| HeadersSync.HeadersSyncState.constructor | src/headerssync.cpp:28-60 | Starts in the first pass with nothing taken |
| HeadersSync.HeadersSyncState.ValidateAndProcessSingleHeader | src/headerssync.cpp:222-265 | Takes a header if and only if the difficulty step is permitted and the number of commitment heights so far is within its bound |
| HeadersSync.HeadersSyncState.ValidateAndStoreHeadersCommitments | src/headerssync.cpp:174-220 | Takes a message if and only if it connects and all headers are taken; switches to the second pass exactly at the work asked for |
| HeadersSync.HeadersSyncState.ValidateAndStoreRedownloadedHeader | src/headerssync.cpp:267-345 | Takes a header if and only if it connects, is permitted, and, at every 610th height until the work is reached, has the bit of the first-pass header at that height |
| HeadersSync.HeadersSyncState.PopHeadersReadyForAcceptance | src/headerssync.cpp:347-364 | Hands out exactly the headers that are ready, unaltered and in order |
| HeadersSync.HeadersSyncState.ProcessNextHeaders | src/headerssync.cpp:67-172 | Success, headers handed out, whether to ask for more and the next state, exactly, for any continuous message in any state; no message with another bit at a commitment height succeeds, nor a first pass beyond the bound |
| HeadersSync.BufferRestores | src/headerssync.cpp:267-364 | Headers handed out followed by the buffer, completed again, are the chain taken in the second pass |
| HeadersSync.TakenBits | src/headerssync.cpp:316-336 | At every commitment height before the work is reached, a chain taken in the second pass has the bit of the first-pass header at that height |
| HeadersSync.Run | src/headerssync.cpp:85-172 | Any continuous messages: what is handed out is a beginning of a linked and permitted chain, each header with 14521 headers accepted above it or the work reached; both passes have the same bits at every commitment height before that; one commitment per such height is kept, within the bound |
| HeadersSync.ReplayTakes | src/headerssync.cpp:267-345 | No check fails on the chain of the first pass, possibly extended |
| HeadersSync.Replay | src/headerssync.cpp:85-172 | A peer that serves its chain again, in any split, gets every header through to the end |
| SkipHeights.InvertTakesPower | src/blockindex.cpp:13-15 | The lowest one bit that is turned off is the largest power of two dividing the number |
| SkipHeights.SkipIsLower | src/blockindex.cpp:18-28 | A skip link always leads strictly lower |
| SkipHeights.EvenSkip | src/blockindex.cpp:18-28 | From an even height the link takes off the largest power of two dividing it |
| SkipHeights.OddSkip | src/blockindex.cpp:18-28 | From an odd height it takes off the two lowest powers of two of the height before, and leads to 1 if there is one only |
| BlockTree.BlockIndex.BuildSkip | src/blockindex.cpp:67-71 | Sets the link to where the plain parent walk leads and keeps the tree sound |
| BlockTree.GetAncestor | src/blockindex.cpp:36-60 | Terminates and equals the plain parent walk; null exactly outside the range of heights |
| BlockTree.Build | src/blockindex.cpp:67-71 | Every tree built block by block is sound |
| BlockTree.LastCommonAncestor | src/chain.cpp:112-134 | The deepest block that is an ancestor of both, or null if there is none; its asserts hold |
| BlockTree.AreOnTheSameFork | src/chain.cpp:136-143 | True if and only if one is an ancestor of the other |
| BlockTree.LocatorEntries | src/chain.cpp:17-39 | The ancestors at a closed-form list of distances: twelve in a row, then doubling steps, ending at height 0 |
| ActiveChain.Chain.SetTip | src/chain.cpp:8-15 | Stops early and still ends with the whole path to the new tip |
| ActiveChain.Chain.Contains | src/chain.h:166-168 | Being in the chain is being an ancestor of its tip |
| ActiveChain.Chain.FindFork | src/chain.cpp:49-60 | The deepest block of the chain that is an ancestor of the given one |
| CuckooSlots.ChangeOne | src/cuckoocache.h:424-480 | Changing one slot changes the bag of live elements and both epoch counts by that slot's share |
| CuckooCache.FastRangeBound | src/cuckoocache.h:262-271 | Hashes are mapped below the table size, in proportion: the product rounded down by 32 bits |
| CuckooCache.HomeIff | src/cuckoocache.h:262-271 | The places of a key are those its eight hashes give |
| CuckooCache.Cache.constructor | src/cuckoocache.h:359-371 | A new cache has nothing alive |
| CuckooCache.Cache.EpochCheck | src/cuckoocache.h:303-338 | The next counter exactly; the newest epoch and the counter stay within their bound with room for one insertion; a new epoch gives up the old one and turns the newest into it |
| CuckooCache.Cache.Put | src/cuckoocache.h:424-480 | The bag of live elements gains one element of that key and loses at most one, whatever the displacement chain; if one of the eight hashed places has the key, exactly that place is renewed, its content kept or replaced as asked; otherwise the element is the one added; with a free hashed place nothing of another key is lost |
| CuckooCache.Cache.PutNew | src/cuckoocache.h:445-479 | The displacement chain step by step: each step writes the element in hand to one of its hashed places and takes the one there; it ends at a free hashed place with nothing lost, or at the depth limit with the last one lost; with a free place of its own nothing is lost |
| CuckooCache.Cache.Insert | src/cuckoocache.h:424-480 | The same for a whole insertion, with the old epoch given up when a new one begins |
| CuckooCache.Cache.Find | src/cuckoocache.h:536-547 | Found if and only if one of the eight hashed places has the key, so a live key always is; erasing takes out exactly that place |
| CuckooCache.EpochSizeMeant | src/cuckoocache.h:359-371 | The epoch size is 45 percent of the slots if and only if there are at most 95443717 of them; beyond that the 32-bit product wraps |
| CuckooCache.EpochSizeIs | src/cuckoocache.h:359-371 | For any number of slots: 45 hundredths of the wrapped product, rounded down, and at least 1 |
| CuckooCache.RoomLeft | src/cuckoocache.h:359-371 | With more than 20 slots, two epochs at their bounds leave a slot over, wrapped or not |
| CuckooCache.WrittenEffect | src/cuckoocache.h:445-476 | Writing to a slot exchanges, in bag and counts, what was alive there for the new element |
| CuckooCache.Run | src/cuckoocache.h:303-338 | Over any run: the bounds on both epochs, on the total, a reclaimable slot, and every live element at a place hashed from its key |
| WideArith.Add | src/arith_uint256.h:134-142 | The sum modulo 2 to the width, with aliasing allowed and no 64-bit overflow |
| WideArith.Complement | src/arith_uint256.h:70-76 | All bits inverted: the largest number minus the value |
| WideArith.Increment | src/arith_uint256.h:167-174 | Plus one modulo 2 to the width |
| WideArith.Negate | src/arith_uint256.h:78-85 | The negative modulo 2 to the width |
| WideArith.Subtract | src/arith_uint256.h:144-147 | The difference modulo 2 to the width |
| WideArith.CompareTo | src/arith_uint256.cpp:120-130 | The sign of the difference |
| WideArith.Multiply32 | src/arith_uint256.cpp:60-68 | The product with one limb modulo 2 to the width, no 64-bit overflow |
| WideArith.Multiply | src/arith_uint256.cpp:71-83 | The product modulo 2 to the width, no 64-bit overflow |
| WideShift.ShiftLeft | src/arith_uint256.cpp:22-38 | The product with a power of two modulo 2 to the width, for any shift |
| WideShift.ShiftRight | src/arith_uint256.cpp:41-57 | The quotient by a power of two, for any shift |
| WideDivide.BitLength | src/arith_uint256.cpp:174-186 | The position of the highest one bit plus one |
| WideDivide.Divide | src/arith_uint256.cpp:86-117 | The exact floor quotient; division by zero fails and leaves zero |
| Targets.SetCompact | src/arith_uint256.cpp:206-226 | The magnitude modulo 2 to the 256; overflow if and only if the magnitude is at least that; the sign |
| Targets.GetCompact | src/arith_uint256.cpp:228-249 | The size is the number of bytes of twice the number and the mantissa what leads the number at that size; the magnitude is at most the number and short of it by less than a 32768th; the sign; its asserts hold |
| CompactForms.SetGet | src/arith_uint256.cpp:206-249 | Reading a compact form and writing it again gives it back if and only if it is canonical: zero, or a mantissa that starts in its first two bytes, has nothing beyond its size, and fits 256 bits |
| Targets.EqualTo | src/arith_uint256.cpp:132-145 | True if and only if the values are equal |
| Targets.GetBlockProof | src/chain.cpp:74-87 | The floor of 2 to the 256 by the target plus one for every accepted target, else 0 |
| CashAddrPoly.StepLinear | src/cashaddr.cpp:80-140 | The checksum step is linear over exclusive or |
| CashAddrPoly.StepInjective | src/cashaddr.cpp:80-140 | The checksum step is one to one on 40-bit words |
| CashAddrPoly.PolyLinear | src/cashaddr.cpp:35-140 | So is the checksum of whole strings linear |
| CashAddrPoly.BurstDetected | src/cashaddr.cpp:35-140 | Strings of any length that differ within eight symbols have different remainders |
| CashAddrPoly.ChecksumWorks | src/cashaddr.cpp:176-189 | Putting the remainder in place of eight zeroes makes the remainder 1 |
| CashAddrField.Constants | src/cashaddr.cpp:94-137 | The five constants are k(x) times 1, a, a^2, a^3 and a^4, symbol by symbol, modulo a^5 + a^3 + 1 |
| CashAddrField.MulNonZero | src/cashaddr.cpp:41-61 | Symbols multiplied modulo a^5 + a^3 + 1 have no zero divisors |
| CashAddrField.StepSymbols | src/cashaddr.cpp:71-137 | One step multiplies by x, adds a symbol and takes off the top symbol times k(x) |
| CashAddrField.RemainderIff | src/cashaddr.cpp:35-140 | For strings of any length: the checksum of a string is its remainder by x^8 + k(x) over the field of 32 elements, and no other word is |
| CashAddr.PolyMod | src/cashaddr.cpp:35-140 | The loop with its five conditional constants computes, less 1, what `CashAddrField.RemainderIff` shows to be a remainder |
| CashAddr.VerifyChecksum | src/cashaddr.cpp:169-171 | True if and only if prefix and payload verify, which `CashAddrField.VerifiesIff` puts in terms of a remainder |
| CashAddrField.VerifiesIff | src/cashaddr.cpp:169-171 | A payload verifies if and only if the polynomial of a leading 1, the prefix and the payload leaves the remainder 1 |
| CashAddrField.VerifiesMeans | src/cashaddr.cpp:155-171 | The same with the symbols spelt out: the low five bits of the prefix in order, a zero, the payload |
| CashAddr.CreateChecksum | src/cashaddr.cpp:176-189 | Any payload followed by its checksum verifies, for any prefix |
| CashAddr.BurstsAreDetected | src/cashaddr.cpp:169-171 | Two strings that both verify and differ only within eight consecutive symbols are the same |
| CashAddr.PrefixesAreTold | src/cashaddr.cpp:155-171 | Prefixes that differ in the low five bits, within eight consecutive characters, never both verify the same payload |
| CashAddrTables.Characters | src/cashaddr.cpp:15-30 | A symbol's character has that symbol in the reverse table |
| CashAddrTables.Entries | src/cashaddr.cpp:15-30 | A character with a symbol is, in lower case, that symbol's character |
| CashAddrTables.CharsetIs | src/cashaddr.cpp:15-15 | The 32 characters in order |
| CashAddrStrings.Encode | src/cashaddr.cpp:198-209 | Prefix, colon and the characters of payload and checksum |
| CashAddrStrings.Decode | src/cashaddr.cpp:214-290 | Nothing if and only if the string does not stand for a verified list of symbols in the one way possible; else prefix and payload, except that it is too short if and only if fewer than eight characters follow the prefix |
| CashAddrStrings.DecodesOnce | src/cashaddr.cpp:214-290 | No string stands for two different prefixes or lists of symbols |
| CashAddrStrings.CapitalsDecode | src/cashaddr.cpp:214-290 | A string in capitals stands for exactly what it stands for in small letters |
| CashAddrStrings.Refusals | src/cashaddr.cpp:214-290 | No string with both cases, with another character, with a colon first or twice, or with a digit before the colon stands for anything |
| CashAddrStrings.ShortDecodes | src/cashaddr.cpp:284-290 | A string of seven symbols after its prefix that verifies, so that the last slice ends before its beginning |
| CashAddrStrings.DecodeShort | src/cashaddr.cpp:214-290 | Decoding that string ends in this case, whatever the default prefix |
| CashAddrStrings.ShortOnce | src/cashaddr.cpp:214-290 | For every prefix and every length up to eight, at most one list of symbols verifies |
| CashAddrStrings.EncodeDecode | src/cashaddr.cpp:198-290 | Decoding undoes encoding if and only if the prefix is non-empty and all small letters |
| CashAddrStrings.DecodeEncode | src/cashaddr.cpp:198-290 | Encoding what was decoded gives the string back in lower case, with the default prefix in front if it had none |
| Radix.MultiplyAdd | src/base58.cpp:66-76 | Multiply-and-add in place: the exact digits, the exact length, and a zero carry in a buffer large enough |
| Base58Sizes.EncodeFits | src/base58.cpp:111-111 | The 138/100 buffer is always large enough |
| Base58Sizes.DecodeFits | src/base58.cpp:55-55 | The 733/1000 buffer is always large enough |
| Base58Tables.DigitOfChar | src/base58.cpp:17-35 | The two tables are inverse, digit by digit |
| Base58Tables.CharOfDigit | src/base58.cpp:17-35 | The two tables are inverse, character by character |
| Base58Tables.CharsAre | src/base58.cpp:16-35 | The digits are exactly the letters and digits other than 0, I, O and l |
| Base58Tables.InOrder | src/base58.cpp:17-19 | The digits come in the order of their codes |
| Base58.EncodeBase58 | src/base58.cpp:101-142 | A one for every leading zero byte, then the number in base 58 without leading zeroes |
| Base58.DecodeBase58 | src/base58.cpp:38-150 | Succeeds if and only if the string, spaces around it aside, stands for bytes within the limit, and returns them |
| Base58.DecodeRest | src/base58.cpp:54-99 | The same from the first digit on |
| Base58Check.ReadOnce | src/base58.cpp:38-99 | No string can be read in two ways |
| Base58Check.SpacesAround | src/base58.cpp:38-99 | White space on either side makes no difference |
| Base58Check.OnlyDigitsAndSpaces | src/base58.cpp:38-99 | A string that can be read has digits and white space only |
| Base58Check.EncodeDecode | src/base58.cpp:38-142 | Decoding an encoding succeeds if and only if the bytes fit the limit or there are none, and then gives them back |
| Base58Check.DecodeEncode | src/base58.cpp:38-142 | Encoding what was decoded gives back the string without the spaces around it |
| Base58Check.EncodeBase58Check | src/base58.cpp:152-158 | Encodes the bytes followed by four bytes of their hash |
| Base58Check.DecodeBase58Check | src/base58.cpp:160-187 | Succeeds if and only if the string stands for bytes followed by their own check, within the limit |
| Base58Check.EncodeDecodeCheck | src/base58.cpp:152-187 | With a checksum, decoding undoes encoding if and only if the bytes fit the limit, or, for limits within four of the largest integer, bytes and check fit that |

## Left out

- Allocator rounding in the memory usage of a script: scripts over 28 bytes count with their length.
- Best-block hashes in the coin caches, `EmplaceCoinInternalDANGER`, memory-pool reallocation and `HaveInputs`: not part of the view.
- The 60-bit truncation of sequence numbers and the 3-bit state field of announcements: sequence numbers are unbounded.
- Atomic memory orders and mutexes outside the check queue: every operation is one step.
- `AddrInfo::GetChance` and `Select_`: floating point and unbounded random retries.
- AddrMan.AddrMan.Good: requires a time after the epoch, as do ResolveOne and ResolveCollisions, which pass the clock on; an entry tried at time 0 would count as never reached.
- CheckQueue.LeftoversDecide: new workers are started while the master is not waiting, as the callers do; the counters reset under a waiting master are not modelled.
- AddrFile.Unserialize: builds the tables as a value instead of filling the fields of a fresh manager, and reads a list of records instead of a byte stream with version numbers.
- AddrRoundTrip.RoundTrip: the times of the last attempts come back as zero, because the file does not hold them.
- HeadersSync.HeadersSyncState.ProcessNextHeaders: work is a natural number, so the 256-bit wrap of chain work is not modelled here; messages are continuous, as the caller has to check.
- `NextHeadersRequestLocator`: one hash in front of a locator.
- BlockTree.GetAncestor: does not bound the number of steps, for which the source has an experiment only.
- CuckooCache.Cache.constructor: takes the depth limit as a parameter, because the source computes it with a floating-point logarithm; all results hold for every limit.
- Lock-free reads of the cuckoo cache and the bit packing of its flags: a set of indices takes their place.
- `getdouble`, `fromDouble`, hexadecimal conversion and the bitwise operators of the number class.
- The 4, 5 and 6 error distances of the cashaddr code: facts about all choices of positions in a window of 1025 symbols, found by enumeration and not by the code modelled here.
- The content encoding of cashaddr payloads, block filters, compact blocks and coin compression: separate components.
- Everything that is input, output, configuration or user interface.
