# Verified models of Bitcoin Unlimited components

This project models nine parts of a Bitcoin Unlimited node in Dafny and proves what they promise:

- **Address manager** (`AddrBook`, `AddrView`, `AddrOps`, `AddrPut`, `AddrSweep`, `AddrMan`; saving and loading in
  `AddrFile`, `AddrLoad`, `AddrSave`, `AddrLimits`, `AddrStore`, `AddrDisk`). Four indexes and two bucket tables that every
  operation must keep in step. `AddrBook` gives each elementary change and proves that it keeps the conditions that the
  manager's own consistency check puts on them, called consistency below; the check's conditions on recorded times are
  followed separately. `AddrView` reads the tables as plain knowledge (for each address its figures and its place) and
  `AddrOps` gives the operations once more on that knowledge. The class `AddrMan.AddrMan` is proved to refine it, for
  any sequence of operations, and `AddrLaws` says what the operations do to the figures of an address, one at a time and
  over whole runs.
- **Unspent coins** (`Coins`, `CoinsSpec`, `CoinsCache`; the codec in `VarInt`, `CoinsCodec`, `CoinsStream`, with
  `CoinsParse` on what can be read and `CoinsFormat` on the documented bytes). A stack of write-back caches with dirty and
  fresh flags over a store, a single live modifier, and the bit-packed record format.
- **Check queue** (`CheckQueue`, `CheckRuns`). The parallel verification queue as a state machine over critical sections,
  with any number of workers and every interleaving, and what its callers see of a run.
- **Partial Merkle trees** (`MerkleSpec`, `MerkleForge`, `MerkleSize`, `MerkleBlock`). Encoding, byte packing and decoding
  of a selection of ids, what decoding refuses, and the size of the result.
- **256-bit arithmetic** (`Limbs`, `Arith256`, `Compact`, `CompactLaws`). Limb loops against whole numbers modulo 2^256,
  and the compact form of difficulty targets.
- **Block tree and active chain** (`SkipList`, `Chain`). Skip pointers against the walk from parent to parent, and the
  number of steps they take.
- **Base58** (`Digits`, `Base58`, `Base58Codec`, `Base58Laws`). Digit buffers against numbers, the buffer sizes, the
  round trips, and which texts there are.
- **Block assembler** (`Miner`). Selection of transactions under dependencies and limits, for every ranking of the pool.
- **Bloom filters and amounts** (`Bits`, `Bloom`, `Compressor`).

`Numbers` holds facts about powers and division, `Options` the optional value. Hash functions, random numbers, the
clock, memory-use figures, transaction output codecs and the memory pool's relations are parameters. Code that updates
objects or buffers in place is modelled by classes and loops, each tied by its contract to a function on values;
everything else is proved about those functions.

Where the code does not keep a promise for every input, the exact condition is proved:

- Decoding a partial tree reports failure as the zero hash and leaves the matches found so far in place, so it is sound
  exactly for blocks whose Merkle root is not the zero hash (`SoundIffRootNonzero`). The claimed number of transactions
  may be wrong as long as it gives the height of the block's tree (`ExtractSoundAnyCount`); with another height an inner
  node can stand for a transaction (`LowerTree`).
- A selection decodes to the root of its ids exactly when no node above a selected id has two children with the same hash,
  and to the zero hash otherwise (`ExtractExact`, `TwinsExact`).
- The documented limit of 2N - 1 flag bits holds exactly when no selected id lies at or past the edge of the block, the
  first leaf below the highest node with a single child (`TwoNMinusOneBits`, with `ThreeIdsLastSelected` as the smallest
  exception). The documented size of 10 + 32.25 N bytes is kept exactly for at most 65535 hashes with room for the extra
  bits (`SizePromise`); 1012 ids, all selected, are too large by a byte (`AllSelectedTooLarge`), and no block of fewer than
  2^32 transactions exceeds it by more than 8 (`SizeLimit`).
- A coin record comes back exactly when its version and height are not negative (`RoundTripIffNonnegative`).
- Coins created as fresh can be spent to any extent exactly when nothing unspent is visible below (`NewCoinsExact`).
  Otherwise spending all of them brings the coins below back into view as soon as the modifier is released, with
  `SpentDuplicate` and the run `DuplicateSpent` as examples. Overwriting an entry in this way also leaves its memory charge
  behind, which the ghost field `drift` counts exactly, for every cache of a stack.
- The list of examples for variable-length numbers in `src/serialize.h` is wrong for 16511 and 65535; `NumberExamples` has
  the bytes that the code writes.
- A finished block template is maximal up to one megabyte (`NothingMoreFits`). Beyond that a transaction refused for its
  signature operations can fit after all once a later one has brought the block to its second megabyte
  (`RoomComesLate`); `StillUnfit` says that this is the only way.
- Multiplying a 256-bit number in place by itself gives zero, because the operand is cleared first (`U256.Mul`).
- A Bloom filter answers for all its keys after its flags are worked out anew, except when it has no hash functions and
  only clear bits; then it finds none of them (`UpdateEmptyFull`, and `KeyForgotten` for one such filter).
- A file that lists an address twice is loaded into consistent tables, but the index by address is right exactly when no
  entry that gets a place shares its address with another one (`LoadExact`); in `ListedTwice` an address keeps its bucket
  and can no longer be found.
- Clearing an address manager leaves its maps of entries in place, so it is consistent afterwards exactly when they were
  empty (`AddrDisk.Clear`).
- An operation of the address manager keeps the recorded times as the consistency check wants them exactly when it does
  not record a success at a time of zero or less, or an attempt at a negative time, for a known service (`EffectTimely`).
- Walking back along skip pointers is not logarithmic: from heights up to 2^k it takes up to k^2 / 4 + 2 k - 7 steps, and
  that many are needed (`StepsBound`, `StepsReached`). For 2^18 blocks this is the documented 110.
- 32-bit widths give a Merkle tree its height exactly for at most 2^31 transactions (`TreeHeight`).

## Model

| member | source | states |
|---|---|---|
| `AddrBook.SetStatsInv` | src/addrman.cpp:214-217 | new figures for an entry, whatever they are, keep indexes, tables and counters consistent |
| `AddrBook.CreateInv` | src/addrman.cpp:87-97 | a new entry keeps both indexes, the random order, the tables and the counters; only the entry itself still lacks a bucket |
| `AddrBook.SwapInv` | src/addrman.cpp:99-117 | exchanging two places of the random order keeps positions and order mutually inverse |
| `AddrBook.DeleteInv` | src/addrman.cpp:119-131 | an unreferenced entry can always be deleted, and deleting it leaves no index or table pointing to it |
| `AddrBook.UnlinkInv` | src/addrman.cpp:138-141 | the entry of an occupied slot has a positive reference count, and counts stay exact when it loses the slot |
| `AddrBook.LinkInv` | src/addrman.cpp:303-306 | counts stay exact and at most eight when an entry takes a free slot |
| `AddrBook.SweepInv` | src/addrman.cpp:150-160 | leaving all buckets brings the reference count to zero |
| `AddrBook.PromoteInv` | src/addrman.cpp:189-193 | entering the tried table keeps its slots correctly hashed and unique |
| `AddrBook.DemoteInv` | src/addrman.cpp:173-176 | an entry taken from the tried table has no references and leaves no slot behind |
| `AddrBook.ClearNewInv` | src/addrman.cpp:133-146 | clearing a slot keeps consistency, deleting the entry exactly when it was its last slot |
| `AddrBook.EvictInv` | src/addrman.cpp:166-190 | freeing a tried slot keeps consistency, leaves the slot free and does not touch the entry that is to take it |
| `AddrBook.MakeTriedInv` | src/addrman.cpp:148-194 | moving an untried entry to the tried table ends in a consistent manager and none of the assertions on the way can fail |
| `AddrView.ClearNewView` | src/addrman.cpp:133-146 | on the knowledge: whoever stands in the slot loses that bucket and is forgotten when it was the last one; nobody else changes |
| `AddrView.EvictView` | src/addrman.cpp:166-190 | on the knowledge: the address in a tried slot goes back to the bucket of its source, displacing whoever stands there |
| `AddrView.MakeTriedView` | src/addrman.cpp:148-194 | the table surgery amounts to giving the address its tried slot and evicting the previous holder |
| `AddrPut.PutCases` | src/addrman.cpp:292-312 | the three ways an announced entry gets or misses a bucket are exactly the ones the operation on the knowledge describes |
| `AddrSweep.SweepEnd` | src/addrman.cpp:150-160 | visiting all 1024 buckets takes the entry out of every bucket it was in |
| `AddrOps.ViewTidy` | src/addrman.cpp:398-471 | in a consistent manager every address has a place, at most eight buckets, and no two addresses share a slot |
| `AddrOps.AddForgets` | src/addrman.cpp:248-314 | an announcement makes the manager forget at most one address, never the announced one, and only a terrible one in its last bucket; other addresses keep their figures and at most lose buckets |
| `AddrOps.AddOutcome` | src/addrman.cpp:248-314 | a known address stays, refreshed, and gains at most the bucket of the announcement; a new one is remembered exactly when its slot is not held by an address that does not give way |
| `AddrOps.GoodEffect` | src/addrman.cpp:196-246 | an accessible address ends up tried; no tried address is forgotten and at most one address is |
| `AddrOps.GoodSpares` | src/addrman.cpp:148-194 | all other addresses keep their figures; only the previous holder of the tried slot leaves the tried table, for the bucket of its source |
| `AddrLaws.TerribleExact` | src/addrman.cpp:32-50 | an address is spared exactly if it was tried within the last minute, or was seen within 30 days and not in the future, with fewer than three failures if it never succeeded and fewer than ten if its last success is over a week ago |
| `AddrLaws.GoodResets` | src/addrman.cpp:196-246 | after a success both times of the address are that of the success, its failures are zero and every other figure is as before; it is tried |
| `AddrLaws.GoodMovesClock` | src/addrman.cpp:196-203 | the time of the last success is recorded also for an unknown service |
| `AddrLaws.AttemptCounts` | src/addrman.cpp:316-336 | an attempt records its time, and counts as a failure exactly when asked to and none was counted since the last success of anybody |
| `AddrLaws.OneFailurePerSuccess` | src/addrman.cpp:331-335 | without a success in between a second failure does not count |
| `AddrLaws.SuccessSpares` | src/addrman.cpp:32-50 | through any run after a success an address that stays known and recent is not terrible before ten failures were counted |
| `AddrLaws.ConnectedSeen` | src/addrman.cpp:496-514 | the recorded time moves exactly when it is more than twenty minutes old, and nothing else changes |
| `AddrLaws.NewcomerExact` | src/addrman.cpp:285-313 | a new address is remembered exactly if its slot is free, or held by a terrible address or one in several buckets, and then with the announced figures less the penalty |
| `AddrLaws.KnownExact` | src/addrman.cpp:257-312 | which figures of a known address an announcement refreshes, and exactly when it gains a bucket |
| `AddrLaws.EffectTidy` | src/addrman.cpp:148-314 | every operation leaves every address a place and no two addresses one slot |
| `AddrLaws.RunTidy` | src/addrman.cpp:148-314 | and so does every run |
| `AddrMan.AddrMan.constructor` | src/addrman.h:449-473 | a new manager is consistent and knows nothing |
| `AddrMan.AddrMan.Find` | src/addrman.cpp:74-85 | finds exactly the addresses that are known, with their records |
| `AddrMan.AddrMan.Create` | src/addrman.cpp:87-97 | the in-place creation of an entry is the elementary step, before the new entry is counted |
| `AddrMan.AddrMan.SwapRandom` | src/addrman.cpp:99-117 | the in-place exchange is the elementary step |
| `AddrMan.AddrMan.Delete` | src/addrman.cpp:119-131 | the in-place deletion is the elementary step; a missing id changes nothing |
| `AddrMan.AddrMan.ClearNew` | src/addrman.cpp:133-146 | the in-place clearing of a slot is the elementary step |
| `AddrMan.AddrMan.SweepOut` | src/addrman.cpp:150-160 | the loop over all new buckets takes the entry out of all of them and ends with reference count zero |
| `AddrMan.AddrMan.EvictTried` | src/addrman.cpp:166-188 | the in-place eviction is the elementary one although the counter of new entries runs one behind |
| `AddrMan.AddrMan.MakeTried` | src/addrman.cpp:148-194 | the manager stays consistent and its knowledge changes as promotion with eviction says |
| `AddrMan.AddrMan.FindBucket` | src/addrman.cpp:225-235 | the search from a random start finds a bucket holding the entry, and none only if there is none |
| `AddrMan.AddrMan.Good_` | src/addrman.cpp:196-246 | at any time keeps consistency and refines the operation on the knowledge, whose figures `AddrLaws.GoodResets` states; the exit for an entry in no bucket is never taken |
| `AddrMan.AddrMan.Add_` | src/addrman.cpp:248-314 | keeps consistency and refines the operation on the knowledge, and reports exactly whether a routable address was unknown |
| `AddrMan.AddrMan.StochasticTest` | src/addrman.cpp:279-284 | an entry in n buckets passes exactly when the drawn number is a multiple of 2^n |
| `AddrMan.AddrMan.Put` | src/addrman.cpp:292-312 | whatever the slot holds, the entry ends up placed or dropped as the operation on the knowledge says, in a consistent manager |
| `AddrMan.AddrMan.Attempt_` | src/addrman.cpp:316-336 | at any time keeps consistency and changes the record of that very service only |
| `AddrMan.AddrMan.Connected_` | src/addrman.cpp:496-514 | keeps consistency and changes the record of that very service only |
| `AddrMan.AddrMan.GetAddr_` | src/addrman.cpp:475-494 | returns different known addresses, none terrible, at most 23 percent of all and at most 2500, and all that qualify if fewer; the knowledge does not change |
| `AddrMan.AddrMan.Run` | src/addrman.h:497-593 | after any sequence of operations the manager is consistent and knows exactly what the operations on the knowledge give; if all were in time, so are the recorded times |
| `AddrMan.EffectTimely` | src/addrman.cpp:411-432 | proper times stay proper exactly when the operation is in time or does not concern a known service |
| `AddrFile.LoadInv` | src/addrman.h:339-438 | loading any file without duplicate addresses gives a consistent manager, whatever bucket positions it lists |
| `AddrLoad.LoadExact` | src/addrman.h:339-438 | loading any file gives consistent tables and counters; the index by address is right as well exactly when no entry with a place shares its address with another entry |
| `AddrLoad.ListedTwice` | src/addrman.h:372-427 | a file of another version with the same entry twice leaves one entry in its bucket that cannot be looked up |
| `AddrLoad.PositionsIgnored` | src/addrman.h:410-427 | bucket positions of another version or for another number of buckets make no difference |
| `AddrLoad.LoadedAtHome` | src/addrman.h:377-386 | without usable positions every new entry stands in the bucket of its source and in no other, or another entry stands there |
| `AddrSave.FileSound` | src/addrman.h:289-336 | what is written for a consistent manager has no duplicates, and proper times if the manager has |
| `AddrSave.SaveLoad` | src/addrman.h:289-438 | loading what was saved gives a consistent manager with the same key that knows every address, figure, bucket and tried slot again, except the times of the last attempts; proper times stay proper |
| `AddrLimits.WithinLimits` | src/addrman.h:359-365 | a consistent manager never has more new or tried entries than the reader accepts |
| `AddrStore.ParseWrite` | src/addrman.h:293-371 | the stream of values of a file of any version within the limits is read back as that file, whatever follows it |
| `AddrStore.ParseExact` | src/addrman.h:339-427 | a stream is accepted as a file exactly if the file is within the limits and the stream begins with what is written for it |
| `AddrStore.BucketField` | src/addrman.h:299-300 | the number of buckets is written as it is for version 0, and with bit 30 set for others |
| `AddrStore.StreamStarts` | src/addrman.h:293-300 | the first six values of what is written |
| `AddrStore.CountsWritten` | src/addrman.h:297-321 | the two counters in the header equal the numbers of entries written |
| `AddrStore.StreamRoundTrip` | src/addrman.h:289-438 | the stream written for a consistent manager is accepted and restores its knowledge |
| `AddrDisk.Clear` | src/addrman.h:449-473 | tables, order and counters are back in their initial state, the maps of entries are not; the manager is consistent exactly when those were empty |
| `AddrDisk.Serialize` | src/addrman.h:289-336 | the loops write exactly the stream of the manager's file, and none of their assertions can fail |
| `AddrDisk.Unserialize` | src/addrman.h:339-438 | accepts exactly the complete streams within the limits, and then holds what loading the file means |
| `AddrDisk.Restart` | src/addrman.h:289-438 | saving a manager and loading it into a new one restores what it knew |
| `Coins.Cleanup` | src/coins.h:117-122 | drops exactly the spent outputs at the end, so the record is trimmed and every output keeps its availability |
| `Coins.CleanUnique` | src/coins.h:117-130 | trimmed records with the same available outputs are equal |
| `Coins.Spend` | src/coins.cpp:36-43 | succeeds exactly on an available output, makes that one unavailable and no other, changes no other field, and leaves a trimmed record |
| `CoinsSpec.ReadIsView` | src/coins.cpp:74-101 | reading through the layers gives the coins of the topmost layer that knows them |
| `CoinsSpec.ReadFirst` | src/coins.cpp:74-101 | a read answers with the coins of the first layer that has the id, else with the stored ones |
| `CoinsSpec.FetchCopies` | src/coins.cpp:74-91 | each layer a read passed through gets an unmodified copy, marked fresh exactly when all of it is spent; the others are left alone |
| `CoinsSpec.FetchKeepsView` | src/coins.cpp:74-91 | caching what was read changes the view of no layer and keeps the flags of every layer meaningful |
| `CoinsSpec.UncacheKeepsView` | src/coins.cpp:227-235 | dropping an entry without flags is invisible |
| `CoinsSpec.SetTop` | src/coins.cpp:103-123 | a new entry changes the view at its id only, and a dirty one with the right freshness keeps the flags meaningful |
| `CoinsSpec.ReleaseExact` | src/coins.cpp:304-317 | what a release leaves is visible exactly unless the entry is fresh, its coins are gone and something unspent is below; no other id changes |
| `CoinsSpec.NewCoinsExact` | src/coins.h:436-444 | new coins marked fresh end up visible as the modifier left them, whatever it did, exactly when nothing unspent is visible below |
| `CoinsSpec.SpentDuplicate` | src/coins.h:436-444 | the duplicate of a stored coinbase, created as fresh and spent before a flush, gives way to the stored one |
| `CoinsSpec.DropFreshPruned` | src/coins.cpp:311-312 | forgetting a fresh entry whose coins are gone is invisible |
| `CoinsSpec.FlushIntoLayer` | src/coins.cpp:173-225 | after a flush the layer below shows what the flushed layer showed, with meaningful flags |
| `CoinsSpec.NeverStored` | src/coins.cpp:173-217 | through any number of flushes a layer keeps coins that were never stored below exactly while they are unspent |
| `CoinsSpec.MaybeStored` | src/coins.cpp:173-217 | and changes to coins that may be stored below until they are written there |
| `CoinsSpec.NothingChanged` | src/coins.cpp:177 | entries that are not dirty leave no trace |
| `CoinsSpec.FlushIntoRoot` | src/txdb.cpp:53-75 | after a flush the store shows what the flushed layer showed |
| `CoinsCache.CoinsDb.BatchWrite` | src/txdb.cpp:53-75 | the loop stores the dirty entries with unspent coins, erases the pruned ones and leaves the rest |
| `CoinsCache.CoinsViewCache.FetchCoins` | src/coins.cpp:74-91 | the recursive fetch puts into every layer what reading through the stack puts there, with the memory counters of all layers exact |
| `CoinsCache.CoinsViewCache.GetCoins` | src/coins.cpp:93-101 | answers with what is visible and is itself invisible at every layer, in the memory accounts of all of them too |
| `CoinsCache.CoinsViewCache.HaveCoins` | src/coins.cpp:145-153 | true exactly when unspent coins are visible; invisible at every layer itself |
| `CoinsCache.CoinsViewCache.Uncache` | src/coins.cpp:227-235 | drops the entry exactly when it has no flags, keeps the accounting and the view |
| `CoinsCache.CoinsViewCache.BatchWrite` | src/coins.cpp:173-217 | entry by entry the child is merged, the flags stay meaningful and the memory counter exact |
| `CoinsCache.CoinsViewCache.Flush` | src/coins.cpp:219-225 | the cache is empty afterwards, shows the same coins, and the layer below shows them too, with the memory counters of all layers exact |
| `CoinsCache.CoinsViewCache.ModifyCoins` | src/coins.cpp:103-123 | opens the entry, dirty and with the visible coins, without changing the view of any layer; a new entry is fresh exactly when nothing was visible |
| `CoinsCache.CoinsViewCache.ModifyNewCoins` | src/coins.cpp:125-133 | opens an empty entry for any id; other ids keep their coins, the flags stay meaningful exactly when nothing unspent is below, and the charge of an overwritten entry is left behind exactly |
| `CoinsCache.CoinsModifier.Release` | src/coins.cpp:304-317 | ends the modification: only that id has changed, to the trimmed coins exactly unless they are gone, marked fresh and something unspent is below; the memory counter is exact again |
| `CoinsCache.SpendOutput` | src/coins.cpp:36-317 | spending through a modifier succeeds exactly on an output that is seen, takes just that output out of view, and leaves coinbase flag, height, version and all other transactions as they were |
| `CoinsCache.CreateAndSpend` | src/coins.cpp:125-317 | creating coins and spending them all shows whatever is below, in any consistent stack |
| `CoinsCache.DuplicateSpent` | src/coins.cpp:125-317 | a run in which a stored coinbase is unspent again after its duplicate was spent |
| `VarInt.ReadWrite` | src/serialize.h:346-374 | a non-negative number is read back from its bytes, whatever follows |
| `VarInt.WriteRead` | src/serialize.h:309-324 | bytes that can be read as a number are the bytes written for it, so every number has one encoding |
| `VarInt.WriteVarInt` | src/serialize.h:346-361 | the loop writes the bytes of the number |
| `VarInt.GetSizeOfVarInt` | src/serialize.h:333-344 | the loop counts the bytes of the number |
| `CoinsFormat.NumberFormat` | src/serialize.h:309-316 | the documented sum over the bytes gives the number, and exactly the last byte lacks the high bit |
| `CoinsFormat.NumberSizes` | src/serialize.h:319 | one byte up to 127, two up to 16511, three up to 2113663 |
| `CoinsFormat.NumberExamples` | src/serialize.h:325-330 | the bytes of the documented examples, as the code writes them |
| `CoinsCodec.ReadMaskBack` | src/coins.h:223-233 | counting down on non-zero bytes consumes exactly the mask bytes written |
| `CoinsCodec.UnserializeSerialized` | src/coins.h:182-243 | what is read back from a record, whatever follows it, is the trimmed record with version and height as unsigned readings |
| `CoinsCodec.RoundTripIffNonnegative` | src/coins.h:182-243 | a trimmed record with an unspent output comes back exactly when version and height are not negative |
| `CoinsParse.ReadIsWritten` | src/coins.h:182-243 | if outputs are read only from what is written for them, any record that is accepted is what is written for the one it is read as, which is trimmed and has something unspent |
| `CoinsFormat.RecordFormat` | src/coins.h:25-42 | version, code, mask, outputs and height, in this order |
| `CoinsFormat.FirstExample` | src/coins.h:43-57 | the first documented record, byte by byte, for any output |
| `CoinsFormat.SecondExample` | src/coins.h:59-77 | the second documented record, byte by byte, for any two outputs |
| `CoinsFormat.AmountBytes` | src/coins.h:53-74 | the bytes of the three documented amounts |
| `CoinsStream.CalcMaskSize` | src/coins.cpp:18-34 | the number of mask bytes up to the last used one, and how many of them are not zero |
| `CoinsStream.Serialize` | src/coins.h:182-209 | the loops write the bytes of the record |
| `CoinsStream.GetSerializeSize` | src/coins.h:159-180 | equals the number of bytes written |
| `CoinsStream.Unserialize` | src/coins.h:211-243 | the loops read what the format says, or fail on a stream that ends too early |
| `CheckQueue.StepInv` | src/checkqueue.h:73-180 | every critical section and every executed check keeps the counters exact, conserves the checks and keeps the verdict truthful; what that means for the checks handed over is `CheckRuns` |
| `CheckQueue.ReachableInv` | src/checkqueue.h:73-180 | the invariant holds in every interleaving of one master and any number of workers |
| `CheckRuns.WaitAnswers` | src/checkqueue.h:154-180 | in every run each Wait answers true exactly when all checks handed to Add since the previous Wait are good, and then it ran each of them; after false one of them ran and failed, and nothing ran that was not handed over |
| `CheckRuns.NothingForgotten` | src/checkqueue.h:73-180 | at every moment the checks handed over since the last answer are those queued, those in batches and those finished |
| `CheckRuns.LastInFirstOut` | src/checkqueue.h:126-132 | the check added last is the first of the next batch |
| `CheckRuns.FailureStops` | src/checkqueue.h:133-140 | once a failure is known, until the answer only checks run that threads had already taken while it was not |
| `CheckRuns.NoLostWakeup` | src/checkqueue.h:167-180 | in every run, while a worker sleeps each queued check has a woken worker on its way |
| `CheckQueue.IdleBetweenSessions` | src/checkqueue.h:186-213 | between sessions the queue is idle, so the controller's assertion cannot fail |
| `CheckQueue.BusyThreads` | src/checkqueue.h:99-119 | threads in the loop that are not idle are exactly those holding a batch |
| `CheckQueue.BatchSizeExact` | src/checkqueue.h:125 | the divisor is positive and a batch has at least one check and at most the queue |
| `CheckQueue.NoDeadlock` | src/checkqueue.h:80-141 | a master inside Wait is never stuck; with nothing left to do it has been notified |
| `CheckQueue.StepWork` | src/checkqueue.h:80-141 | while the master waits every step uses up work |
| `CheckQueue.WaitTerminates` | src/checkqueue.h:154-158 | Wait takes no more steps than the work there was |
| `MerkleSpec.NodeHashesDistinct` | src/merkleblock.cpp:64-79 | with distinct ids and an injective hash two nodes of a level never share a hash, so genuine trees pass the duplicate test |
| `MerkleSpec.ExtractSound` | src/merkleblock.cpp:99-184 | whoever made the tree, if decoding returns the block's root then every match is a transaction of the block at its index, in ascending order |
| `MerkleSpec.ExtractSoundAnyCount` | src/merkleblock.cpp:99-184 | the same for a tree that claims another number of transactions of the same height, over distinct ids |
| `MerkleSpec.LowerTree` | src/merkleblock.cpp:99-184 | a tree that claims a single transaction can show the root as that transaction |
| `MerkleSpec.SoundIffRootNonzero` | src/merkleblock.cpp:153-184 | that holds exactly for blocks whose root is not the failure value |
| `MerkleSpec.ExtractBuild` | src/merkleblock.cpp:81-184 | every selection over distinct ids decodes to the root and exactly the selected ids and indices, also with padding bits |
| `MerkleSpec.ExtractExact` | src/merkleblock.cpp:81-184 | every selection over any ids decodes to the selected ids, with the root unless a node above a match has equal children, and with the zero hash then |
| `MerkleSpec.TwinsExact` | src/merkleblock.cpp:118-126 | the traversal meets equal children exactly when some node above a selected id has two existing children with the same hash |
| `MerkleSpec.ForgedFourth` | src/merkleblock.cpp:118-126 | three transactions shown as four with the last one twice: the root is the block's, and decoding fails |
| `MerkleForge.DamageShows` | src/merkleblock.cpp:99-184 | with the same bits no other hashes decode to the same root |
| `MerkleForge.SizeTests` | src/merkleblock.cpp:155-166 | the tests on the sizes report nothing, and refuse no tree whose hashes the traversal would use up |
| `MerkleForge.BadStaysBad` | src/merkleblock.cpp:151-175 | a tree marked bad, such as one never filled, decodes to the zero hash |
| `MerkleForge.AcceptedWhole` | src/merkleblock.cpp:176-183 | eight more bits make an accepted tree be refused |
| `MerkleSpec.EncodingBounds` | src/merkleblock.h:32-49 | a tree with N hashes has N <= transactions, N <= 1 + matches * height and N <= bits <= 2N - 1 + height, so genuine trees pass the size tests |
| `MerkleSize.BitsExact` | src/merkleblock.h:48-49 | there are 2N - 1 bits and one more for each height whose last node has a single child and a match below it |
| `MerkleSize.TwoNMinusOneBits` | src/merkleblock.h:48-49 | at most 2N - 1 bits exactly when no selected id is at or past the first leaf of the highest single-child node |
| `MerkleSize.SizePromise` | src/merkleblock.h:32-49 | at most 10 + 32.25 N bytes exactly when N is at most 65535 and the extra bits fit the room left by N |
| `MerkleSize.SizeLimit` | src/merkleblock.h:32-49 | always kept for fewer than 253 hashes, and never missed by more than 8 bytes below 2^32 transactions |
| `MerkleSize.AllSelectedTooLarge` | src/merkleblock.h:32-37 | 1012 ids, all selected, take more bytes than promised, and so do all selections of a block above 65535 |
| `MerkleSize.ThreeIdsLastSelected` | src/merkleblock.h:48-49 | three ids with the last selected need four bits for two hashes |
| `MerkleBlock.TreeWidthExact` | src/merkleblock.h:67-69 | in 32-bit arithmetic a position exists at a height exactly when its first leaf does |
| `MerkleBlock.PartialMerkleTree.TreeHeight` | src/merkleblock.cpp:142-145 | the loop over 32-bit widths always ends, with the height of the tree exactly for at most 2^31 transactions |
| `MerkleBlock.PackBits` | src/merkleblock.h:101-104 | the bits can be read from the bytes, followed by zero bits only |
| `MerkleBlock.UnpackBits` | src/merkleblock.h:93-99 | eight bits for each byte, least significant first |
| `MerkleBlock.PartialMerkleTree.constructor` | src/merkleblock.cpp:137-149 | the recursive traversal with its bit and hash vectors builds the encoding of the selection |
| `MerkleBlock.PartialMerkleTree.FromWire` | src/merkleblock.h:89-99 | a received tree holds the bits of its bytes |
| `MerkleBlock.PartialMerkleTree.TraverseAndBuild` | src/merkleblock.cpp:81-97 | appends the encoding of the subtree |
| `MerkleBlock.PartialMerkleTree.TraverseAndExtract` | src/merkleblock.cpp:99-135 | consumes exactly the subtree from where the two counters stand, flagging every malformed input and equal children, as `MerkleSpec.ExtractExact` needs them |
| `MerkleBlock.PartialMerkleTree.ExtractMatches` | src/merkleblock.cpp:153-184 | gives root and matches of the decoding, or the failure value |
| `MerkleBlock.Relay` | src/merkleblock.cpp:137-184 | encoded, packed, received and decoded, the root and exactly the selected ids arrive |
| `Arith256.U256.Add` | src/arith_uint256.h:135-145 | addition modulo 2^256, also of a number to itself |
| `Arith256.U256.Increment` | src/arith_uint256.h:173-180 | the limb carry adds one modulo 2^256 |
| `Arith256.U256.Negated` | src/arith_uint256.h:77-84 | the negative modulo 2^256 |
| `Arith256.U256.Sub` | src/arith_uint256.h:147-151 | subtraction modulo 2^256 |
| `Arith256.U256.MulLimb` | src/arith_uint256.cpp:56-65 | multiplication by one limb modulo 2^256, with carries that fit 64 bits |
| `Arith256.U256.Mul` | src/arith_uint256.cpp:68-81 | multiplication modulo 2^256 by another object, and zero when the operand is the object itself |
| `Arith256.U256.ShiftLeft` | src/arith_uint256.cpp:22-36 | multiplication by 2^shift modulo 2^256 for every shift |
| `Arith256.U256.ShiftRight` | src/arith_uint256.cpp:39-53 | division by 2^shift, rounded down, for every shift |
| `Arith256.U256.Div` | src/arith_uint256.cpp:84-107 | division rounded down for every divisor but zero, which is refused; aligning the divisor loses no bits |
| `Arith256.U256.CompareTo` | src/arith_uint256.cpp:110-119 | compares the numbers |
| `Arith256.U256.Bits` | src/arith_uint256.cpp:172-184 | the position of the highest set bit plus one |
| `Compact.SetCompact` | src/arith_uint256.cpp:204-222 | the value is mantissa * 256^(size-3) rounded down, modulo 2^256; overflow is flagged exactly when that reaches 2^256, and the sign exactly when set on a non-zero value |
| `Compact.OverflowExact` | src/arith_uint256.cpp:218-220 | the three size tests together say exactly whether the product reaches 2^256 |
| `Compact.GetCompact` | src/arith_uint256.cpp:224-245 | the compact form is size and leading bytes, moved by a byte when they reach the sign bit; the assertions cannot fail |
| `Compact.CompactRounds` | src/arith_uint256.cpp:204-245 | reading a compact form back cuts off low bytes only and is never negative |
| `Compact.CompactStable` | src/arith_uint256.cpp:204-245 | a number that has been compact once is encoded exactly |
| `CompactLaws.BestBelow` | src/arith_uint256.cpp:204-245 | no compact number comes closer to a target from below than the one made for it |
| `CompactLaws.SmallestSize` | src/arith_uint256.cpp:224-245 | of all compact numbers for the same target it has the smallest size |
| `CompactLaws.SignBack` | src/arith_uint256.cpp:204-245 | the sign of a target comes back exactly unless the target is zero |
| `CompactLaws.ReadExamples` | src/test/arith_uint256_tests.cpp:418-528 | the values of the listed compact numbers |
| `CompactLaws.WriteExamples` | src/test/arith_uint256_tests.cpp:418-528 | the compact forms of the listed values |
| `Compact.StoreTwice` | src/arith_uint256.cpp:204-245 | storing, restoring and storing again raises no flag, never increases the number and gives the same compact form |
| `SkipList.InvertClears` | src/chain.cpp:66 | n & (n - 1) clears the lowest bit that is set |
| `SkipList.SkipsBack` | src/chain.cpp:69-77 | a skip pointer leads strictly back |
| `SkipList.StepsBound` | src/chain.cpp:79-103 | from a height of at most 2^k to any lower one the walk takes at most k^2 / 4 + 2 k - 7 steps, for k from 10 on |
| `SkipList.StepsReached` | src/chain.cpp:79-103 | that many are needed from 2^k - 8 to height 2 |
| `SkipList.DocumentedSteps` | src/chain.cpp:73-75 | at most 110 steps up to 2^18 blocks, and 110 are needed |
| `Chain.GetAncestor` | src/chain.cpp:79-103 | finds the block that walking from parent to parent finds, or nothing for heights outside the chain, in as many steps as counted above when all skip pointers are set |
| `Chain.BuildSkip` | src/chain.cpp:110-114 | sets the skip pointer to that ancestor and keeps the tree in order |
| `Chain.AddBlock` | src/chain.h:110-117 | a tree grown block by block stays in order, and every block but the genesis block has its skip pointer |
| `Chain.ActiveChain.SetTip` | src/chain.cpp:14-24 | although it stops early, entry i is the tip's ancestor at height i for all i |
| `Chain.ActiveChain.FindFork` | src/chain.cpp:54-63 | the highest ancestor that is in the chain; no higher ancestor is |
| `Chain.ActiveChain.GetLocator` | src/chain.cpp:26-52 | entry i is the hash of the ancestor i single steps down for i up to 11 and 9 + 2^(i - 10) below the start after that, the last entry and no other the genesis block's; at most 12 + log2(height + 1) entries |
| `Chain.LocatorSteps` | src/chain.cpp:26-52 | for heights up to 2^30 + 9 no step of a locator overflows |
| `Chain.LocatorShape` | src/chain.cpp:26-52 | these conditions leave one locator per block; it begins with the block itself and its heights strictly descend |
| `Chain.LocatorGaps` | src/chain.cpp:26-52 | twelve entries one block apart, then gaps that double each time |
| `Digits.MulAdd` | src/base58.cpp:44-50 | the carry loop over the buffer multiplies and adds, with what does not fit left over |
| `Digits.DigitsOfNum` | src/base58.cpp:56-65 | digits without leading zeros are determined by their number |
| `Base58.EncodeRatio` | src/base58.cpp:77 | 256^100 <= 58^138 |
| `Base58.DecodeRatio` | src/base58.cpp:34 | 58^1000 <= 256^733 |
| `Base58.RatioFits` | src/base58.cpp:34-77 | so a buffer of the rounded size holds every number of that many digits, for every length |
| `Base58.DecodeEncode` | src/base58.cpp:22-101 | every byte string comes back from its text, leading zeros included |
| `Base58.EncodeDecode` | src/base58.cpp:22-101 | text that decodes is the text of its bytes, apart from white space around it |
| `Base58Laws.AlphabetExact` | src/base58.cpp:19-20 | the digits are exactly the digits and letters other than 0, I, O and l |
| `Base58Laws.SpaceExact` | src/base58.cpp:25-26 | white space is the space and the characters 9 to 13 |
| `Base58Laws.DecodesExactly` | src/base58.cpp:22-66 | text decodes exactly if it is one run of such characters with nothing but white space around it |
| `Base58Laws.EncodeNumber` | src/base58.cpp:68-101 | the text is the number of the bytes in base 58, with as many leading ones as there are leading zeros |
| `Base58Laws.OneByte` | src/test/data/base58_encode_decode.json:3 | the text of a listed byte string |
| `Base58Laws.ThreeBytes` | src/test/data/base58_encode_decode.json:4 | the text of another |
| `Base58Codec.Convert` | src/base58.cpp:79-89 | all digits go into the buffer and no carry is ever left |
| `Base58Codec.EncodeBase58` | src/base58.cpp:68-101 | the loops give the text of the bytes |
| `Base58Codec.ReadDigits` | src/base58.cpp:36-52 | reads up to white space or a foreign character, and no carry is ever left |
| `Base58Codec.DecodeBase58` | src/base58.cpp:22-66 | succeeds exactly when the stripped text has digits only, and then gives its bytes |
| `Base58Codec.DecodeBase58Str` | src/base58.cpp:108-111 | a string object is decoded up to its first zero character |
| `Base58Codec.EncodeBase58Check` | src/base58.cpp:113-120 | the text of the bytes with their checksum |
| `Base58Codec.DecodeBase58Check` | src/base58.cpp:122-137 | succeeds exactly when the last four bytes are the checksum of the rest, and clears the result otherwise |
| `Base58Codec.CheckRoundTrip` | src/base58.cpp:113-137 | bytes with a checksum come back, for every hash function |
| `Base58Codec.CheckIsCanonical` | src/base58.cpp:113-137 | accepted text is the text of the returned bytes, apart from white space around it |
| `Base58Laws.CheckExact` | src/base58.cpp:113-137 | bytes are accepted from a text exactly if it is the text of those bytes followed by their checksum |
| `Miner.BlockAssembler.ResetBlock` | src/miner.cpp:93-106 | an empty template with consistent totals |
| `Miner.BlockAssembler.IsStillDependent` | src/miner.cpp:244-254 | true exactly when a parent is not in the block |
| `Miner.BlockAssembler.IsIncrementallyGood` | src/miner.cpp:258-306 | true exactly when size and signature operations stay within their limits; says exactly which refusals end the block and which count as misses |
| `Miner.BlockAssembler.TestForBlock` | src/miner.cpp:308-320 | true exactly when the transaction fits and is final |
| `Miner.SigOpsAllowedExact` | src/miner.cpp:280-303 | fewer than 20000 signature operations up to one megabyte, and beyond it at most the allowance of the megabytes the block fits in |
| `Miner.FitsAfterExact` | src/miner.cpp:258-320 | a transaction fits exactly if it is final and the block with it is within both limits |
| `Miner.BlockAssembler.AddToBlock` | src/miner.cpp:322-343 | keeps all totals, limits, the order of parents and the absence of duplicates |
| `Miner.TopPriority` | src/miner.cpp:440-444 | takes a candidate of the highest priority |
| `Miner.TopScore` | src/miner.cpp:361-367 | takes the best ranked of the candidates that are ready again |
| `Miner.BlockAssembler.AddScoreTxs` | src/miner.cpp:345-407 | terminates for every ranking; every waiting transaction lacks a parent, and all those ranked before some place are in the block, waiting, or were tried and did not fit: the whole pool after a complete run, else up to the first one that is ready and pays too little for a block large enough, or until the block was full; whatever is added pays enough or was needed to reach the minimum size |
| `Miner.BlockAssembler.AddPriorityTxs` | src/miner.cpp:409-487 | terminates and never meets a transaction already in the block; all it adds but the last have a priority that costs nothing and left the block below the priority size; a complete run leaves each candidate in the block, waiting for a parent or refused, and otherwise no candidate left has a higher priority than the last one added, or the block was full |
| `Miner.BlockAssembler.CreateNewBlock` | src/miner.cpp:170-242 | the template has no duplicates, parents first, size and signature operations within the limits if the reserve is, exact totals, and a fee list that adds up to zero; everyone is accounted for up to a transaction that pays too little, or the block is nearly full |
| `Miner.LeftOutForCause` | src/miner.cpp:345-407 | after a complete run a path of parents leads from every transaction outside the block to one that was tried and did not fit, all of them outside |
| `Miner.StillUnfit` | src/miner.cpp:258-306 | what did not fit once fits later only into a block of more than one megabyte |
| `Miner.NothingMoreFits` | src/miner.cpp:345-407 | after a complete run no transaction with its parents in the block can be added to give a block of at most one megabyte |
| `Miner.RoomComesLate` | src/miner.cpp:280-303 | a transaction refused for its signature operations that fits after a large one |
| `Bits.SetBitTests` | src/bloom.cpp:71-72 | setting a bit sets that bit only |
| `Bits.BitValue` | src/bloom.cpp:71-72 | bit k of a byte is worth 2^k |
| `Bloom.SeedSteps` | src/bloom.cpp:58-62 | the seeds start at the tweak and advance by 0xFBA4C795 modulo 2^32 |
| `Bloom.SeedsDiffer` | src/bloom.cpp:58-62 | no two hash functions of a filter have the same seed |
| `Bloom.BloomFilter.HashRemainder` | src/bloom.cpp:58-62 | a bit position is the remainder of the hash by the number of bits |
| `Bloom.BloomFilter.Insert` | src/bloom.cpp:64-75 | exactly the bits of the key are set, and it is found from now on, like all keys inserted since the last clear; a filter with the bits of its keys and no others stays one |
| `Bloom.BloomFilter.Contains` | src/bloom.cpp:91-105 | never misses an inserted key; true exactly when the filter is full or all bits of the key are set in a filter not empty, and then each is a bit of some inserted key |
| `Bloom.BloomFilter.Clear` | src/bloom.cpp:121-126 | all bits are clear, nothing is inserted, and both flags are right |
| `Bloom.BloomFilter.Reset` | src/bloom.cpp:128-132 | the same with a new tweak |
| `Bloom.BloomFilter.UpdateEmptyFull` | src/bloom.cpp:209-220 | the flags say whether all bits are set and whether all are clear; all keys are found exactly unless there are keys, no hash functions and only clear bits, and then nothing is found |
| `Bloom.KeyForgotten` | src/bloom.cpp:209-220 | one byte, no hash functions and one key, found before and not after |
| `Bloom.RollingBloomFilter.Insert` | src/bloom.cpp:235-247 | through both staggered clears and the wrap of the counter, each filter holds exactly the latest keys it should |
| `Bloom.RollingBloomFilter.Contains` | src/bloom.cpp:255-261 | each of the last N inserted keys is found, at every moment; the answer is that of a filter with exactly the last k keys, for some k from N to 2N, so older keys leave no trace |
| `Bloom.RollingBloomFilter.Reset` | src/bloom.cpp:269-275 | starts over with an empty history |
| `Compressor.DecompressCompress` | src/compressor.cpp:143-186 | every amount comes back |
| `Compressor.CompressDecompress` | src/compressor.cpp:143-186 | every number is the compressed form of exactly one amount |
| `CoinsFormat.AmountFormat` | src/compressor.cpp:134-141 | the documented form for up to eight zeros at the end |
| `CoinsFormat.RoundAmountFormat` | src/compressor.cpp:134-141 | the documented form for nine zeros or more |
| `CoinsFormat.AmountExamples` | src/test/compress_tests.cpp:43-48 | the compressed forms of the listed amounts and of three more |
| `Compressor.MoneyFits` | src/compressor.cpp:143-162 | no amount up to 21 million coins leaves 64 bits |
| `Compressor.CompressAmount` | src/compressor.cpp:143-162 | the loop computes the compressed form modulo 2^64, hence exactly for all amounts of money |
| `Compressor.DecompressAmount` | src/compressor.cpp:164-186 | the loop computes the amount modulo 2^64 |
| `Compressor.StoreAmount` | src/compressor.cpp:143-186 | every amount of money survives being stored |

## Left out

- AddrDisk.Unserialize: counts in the stream are non-negative, the stream holds typed values instead of bytes, and the manager starts with empty maps; with entries left over from before the source goes on to delete ones that are not in the random order.
- AddrDisk.Clear: the fresh random key is a parameter.
- The address manager's bucket tables are maps from slots to ids with free slots absent, not arrays holding -1; ids are unbounded.
- Choosing an address to connect to (floating-point chances and time-outs).
- MerkleBlock.PartialMerkleTree.ExtractMatches: for at most 2^31 transactions; beyond that the height loop of the source stops too early.
- MerkleBlock.PartialMerkleTree.constructor: for at least one and at most 2^31 transactions; the source reads outside its vector for none.
- CoinsStream.Unserialize: numbers read from the stream are unbounded; the source keeps 32 bits, and overflow of its signed numbers is undefined.
- Best-block hashes, priorities and the storage engine below the coin caches; a cache is not used while another one is stacked on it.
- Shutting the check queue down while checks are pending.
- Arith256.U256.Div: reports division by zero as an answer instead of an exception.
- Text forms and floating-point values of 256-bit numbers, and difficulty retargeting.
- Chain.ActiveChain.GetLocator: the step is an unbounded number; `Chain.LocatorSteps` tells up to which height that makes no difference.
- Base58Codec.DecodeBase58: the text is what stands before the terminator.
- Versioned address and key objects built on base58.
- Miner.BlockAssembler.IsIncrementallyGood: counters of signature operations do not wrap at 2^32.
- Miner.BlockAssembler.CreateNewBlock: header fields, the coinbase script, the final validity test and the second attempt under the smaller size limit are not part of the model; the mining score is any ranking, and ties of priority are left open.
- Sizing a Bloom filter from an error rate (floating point), and matching whole transactions against a filter.
- Bloom.RollingBloomFilter.Insert: for a capacity of zero the counter of insertions does not wrap at 2^32.
- CoinsParse.ReadIsWritten: for output codecs without a second way to write an output; that of the source has one for some scripts.
- Script compression.
- Networking, RPC, wallet and start-up code is not modelled.
