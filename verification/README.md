# Verified kernels of a Bitcoin-derived node

This project models the self-contained core of the node in Dafny and proves what
that code is relied on for. Each module follows one component of the source.

- `Coins`: the stack of write-back coin caches with DIRTY and FRESH flags, shown to be
  indistinguishable from one map of unspent coins.
- `CheckQueue`: the master/worker verification queue as a state machine over its
  critical sections, for any number of workers and any interleaving.
- `AddrMan`, `AddrManager`, `AddrManDisk`: the address manager. `AddrMan` holds its
  state as a value, the operations and the invariant; `AddrManager` is the class that
  updates maps and bucket arrays in place and is proved to do just that; `AddrManDisk`
  is the on-disk form.
- `CuckooCache` and `RollingBloom`: the signature cache and the rolling bloom filter.
- `Arith` and `Compact`: the 32-bit limb arithmetic for any width, the compact
  encoding of targets and the work of a block.
- `Base58`, `Bip39`, `Compressor`, `BlockEncodings`: encoders and their decoders.
- `Chain`: the skip list of the block index, the active chain and locators.
- `Numbers`: powers, positional notation and bit operations used by the codecs.
- `Basics`: a value that may be absent, and the larger of two numbers.

Conventions. Hash functions, random numbers, the clock, the word list, the outcome of
`CheckBlock` and the bucket sizes of a standard hash table are parameters. Unsigned
machine arithmetic that can wrap is written out with its modulus. An exception or an
error return is a result value. Where the source works in place, the model does so on
arrays and class fields and is proved against a function of the old state.

Where the code differs from what is said about it, the model follows the code:

- `Unserialize` and one clause of `Check_` index addresses by the full service while
  lookups drop the port unless ports are discriminated. The exact conditions under
  which this does no harm are `AddrManDisk.StoreAndLoad` and `AddrMan.CheckAddrPassesIff`;
  `AddrManDisk.RestartLosesIndex` and `AddrMan.CheckAddrFails` are runs that fail.
  Nothing but lookups depends on it: `AddrManDisk.EveryLifeIsSound`.
- `AddCoin` without permission to overwrite relies on a promise of its caller.
  `Coins.AddEntrySafeIff` says exactly when it holds, `Coins.BrokenPromiseRevivesCoin`
  what happens otherwise, and `AddCoin` and `Run` require it.
- The largest amount the node allows is beyond what amount compression can hold
  (`Compressor.LargestAmountIsLost`); `Compressor.AmountRoundTrip` says exactly which
  amounts come back.
- The loop of `InitData` that skips filled slots counts in 16 bits (src/blockencodings.cpp:86-89).
  With 65536 prefilled transactions and at least one short id it runs round all filled
  slots and does not end. `BlockEncodings.SkipFilled` and `InitData` say exactly when, and
  `BlockEncodings.EndlessMessage` is such a message, within the size limit of the code.
- The slot numbers of short ids have 16 bits although a compact block may have more
  slots; `BlockEncodings.InOrderExactly` says when they suffice. Beyond 65536 slots the
  last one is never filled and is requested under another number, so that the block
  does not come back (`BlockEncodings.Relay`).
- `Unserialize` does not refuse negative counters, and then the manager is not sound
  (`AddrManDisk.LoadedSoundIff`, `AddrManDisk.NegativeAccepted`).
- `FromData` makes mnemonics of 20 and 28 bytes too, which `Check` refuses
  (`Bip39.RoundTrip`).
- The element that fills a new cuckoo cache is found in it although it was never
  inserted (`CuckooCache.Cache.FromSetup`).
- A canonical compact word need not come back, because it may overflow
  (`Compact.WordRoundTrip`, `Compact.CanonicalMayOverflow`).
- After too few transactions `FillBlock` keeps its header, so that it can be called again,
  although slots have been emptied already.
- A comment in the cuckoo cache (src/cuckoocache.h:395-396) says that the first
  displaced location is the first hash; the code takes the second
  (`CuckooCache.Cache.FirstMove`).
- `operator*=` clears its result before it reads its operand, so a number multiplied by
  itself through an alias gives zero.
- The FRESH branch of `FetchCoin` (src/coins.cpp:54) is dead, because a parent view
  never reports a spent coin.
- After index 65535 the running offset of a transaction request wraps, so a list that
  is not increasing can be accepted (`BlockEncodings.OffsetWraps`).

## Model

| member | source | states |
|---|---|---|
| `Coins.WriteEntryPuts` | src/coins.cpp:161-216 | writing one child entry into a cache puts exactly that coin into the view on top of it, keeps every flag of that cache honest towards its own base, and never meets the "FRESH flag misapplied" throw |
| `Coins.StoreEntryMovesOneEntry` | src/txdb.cpp:86-108 | handing one entry of a child cache to the database changes nothing seen through both, and leaves the other flags of the child honest |
| `Coins.WriteEntryMovesOneEntry` | src/coins.cpp:161-216 | the same between two caches: the combined view, the flags of the child that are left and those of the parent towards the grandparent all survive |
| `Coins.AddEntryPuts` | src/coins.cpp:73-95 | an add shows exactly the added coin and keeps non-DIRTY entries equal to the base and FRESH entries absent from it, given the promise about overwriting |
| `Coins.AddEntrySafeIff` | src/coins.cpp:73-95 | an add without permission to overwrite succeeds with honest flags if and only if the view has no unspent coin there |
| `Coins.BrokenPromiseRevivesCoin` | src/coins.cpp:73-95 | what a broken promise leads to: a spend of the added coin brings the coin it replaced back |
| `Coins.SpendEntryRemoves` | src/coins.cpp:107-123 | spending removes the coin from the view and keeps the flags honest, whether the entry is erased (FRESH) or kept as a spent DIRTY entry |
| `Coins.CleanFillInvisible` | src/coins.cpp:45-61 | caching a coin of the base changes no view |
| `Coins.CleanDropInvisible` | src/coins.cpp:226-233 | uncaching an entry without flags changes no view |
| `Coins.WriteEntryUsage` | src/coins.cpp:161-216 | the usage counter stays the sum over the entries through every branch of a batch write |
| `Coins.TotalUsageRemove` | src/coins.h:112-128 | the sum of the memory of the entries does not depend on the order of visiting them |
| `Coins.CoinsView.Database` | src/txdb.cpp:62-69 | a database shows its own coins |
| `Coins.CoinsView.OnTop` | src/coins.cpp:38 | a new cache on top of a view shows what that view shows |
| `Coins.CoinsView.GetCoin` | src/coins.cpp:63-71 | at any height of the stack a lookup finds exactly the unspent coin of the view; what this view and every view below it show stays the same |
| `Coins.CoinsView.FetchCoin` | src/coins.cpp:45-61 | filling a cache from below changes no view at any depth; the cache itself gains at most the entry asked for, an unflagged copy of the coin seen |
| `Coins.CoinsView.AddCoin` | src/coins.cpp:73-95 | the view becomes the old one with the coin added (or unchanged for an unspendable one), with flags and usage kept and every view below unchanged; the one entry that changes is DIRTY, and FRESH exactly if it was so before or was not DIRTY and no overwrite is possible; a script that starts with OP_RETURN or is longer than 10000 bytes changes nothing |
| `Coins.CoinsView.SpendCoin` | src/coins.cpp:107-123 | the view loses the coin, which is handed out if it was there; every view below is unchanged; a FRESH entry is gone, any other becomes a spent DIRTY one, and the other entries are as before |
| `Coins.CoinsView.Uncache` | src/coins.cpp:226-233 | an entry without flags is dropped, a flagged one stays, all others are as before, and no view changes, at any depth |
| `Coins.CoinsView.BatchWriteToStore` | src/txdb.cpp:86-108 | afterwards the database shows what the child cache showed |
| `Coins.CoinsView.BatchWriteToCache` | src/coins.cpp:161-216 | afterwards the parent shows what the child showed, its own flags and usage are in order, and every view below it is unchanged |
| `Coins.CoinsView.BatchWrite` | src/coins.cpp:220 | the dispatch: the receiving view becomes what the child showed and no other view changes |
| `Coins.CoinsView.Flush` | src/coins.cpp:218-224 | the child is empty, it and its base show what the child showed, and every view further down is unchanged |
| `Coins.CoinsView.FlushAt` | src/coins.cpp:218-224 | flushing any level copies its view onto the one below and changes no other view of the stack |
| `Coins.CoinsView.UncacheAt` | src/coins.cpp:226-233 | uncaching at any level changes no view of the stack |
| `Coins.CoinsView.Perform` | src/coins.cpp:45-123 | one operation on a stack of any height acts on and answers from one plain map of unspent coins, and what it does to every view of the stack |
| `Coins.CoinsView.Run` | src/coins.cpp:45-233 | for any stack and any legal run of reads, adds, spends, uncaches and flushes at any level, the answers and the final top view are those of one plain map, every lower view is what the flushes copied into it, and every flag invariant holds throughout |
| `CheckQueue.BatchSize` | src/checkqueue.h:108-113 | every batch has at least one check, at most the limit, and never more than the queue holds |
| `CheckQueue.BatchShare` | src/checkqueue.h:108-113 | a batch of more than one check is at most an equal share of the queue for all threads, the idle ones counted twice, and no less than that unless the limit is |
| `CheckQueue.CalledIff` | src/checkqueue.h:125-128 | the next check of a batch is called exactly if the thread knows of no failure, and its verdict is then known |
| `CheckQueue.InitInv` | src/checkqueue.h:137 | a new queue satisfies the invariant |
| `CheckQueue.ReportKeeps` | src/checkqueue.h:83-88 | reporting a batch keeps the counters and the account of checks |
| `CheckQueue.TakeBatchKeeps` | src/checkqueue.h:108-122 | taking a batch moves checks from the queue to the thread and keeps nTodo equal to queue plus batches in flight |
| `CheckQueue.RunOneKeeps` | src/checkqueue.h:125-128 | running or skipping one check keeps the account of what has been verified |
| `CheckQueue.ReturnKeeps` | src/checkqueue.h:94-103 | when the master leaves, nothing is in flight and the verdict is right for this round |
| `CheckQueue.AddKeeps` | src/checkqueue.h:152-164 | adding keeps the counters and the account of checks |
| `CheckQueue.AddIsPossible` | src/checkqueue.h:152-164 | outside of `Wait` any checks can be added at any time |
| `CheckQueue.StepKeepsWakeUps` | src/checkqueue.h:81-123 | no step loses a wake-up: a waiting master has a signal pending or a worker holds a batch, and a waiting worker with work to do has one awake |
| `CheckQueue.StepKeepsInv` | src/checkqueue.h:72-164 | every step of every thread keeps the whole invariant |
| `CheckQueue.RunKeepsInv` | src/checkqueue.h:72-164 | so does every interleaving, for any number of workers |
| `CheckQueue.WaitReturnsConjunction` | src/checkqueue.h:146-149 | in every interleaving each `Wait` returns exactly the conjunction of the checks that the calls of `Add` since the one before handed in, and no late result leaks into another round |
| `CheckQueue.RunRecords` | src/checkqueue.h:72-164 | what was handed in and returned, read off the calls alone, is what the state machine records: no check is dropped, changed or counted for another round |
| `CheckQueue.InternalRunsAreBounded` | src/checkqueue.h:72-130 | without new calls from outside the number of steps is bounded, by two more for each spurious wake-up among them |
| `CheckQueue.NoDeadlock` | src/checkqueue.h:72-130 | as long as the master has not returned some thread can move |
| `CheckQueue.WaitReturns` | src/checkqueue.h:146-149 | therefore `Wait` returns after boundedly many steps, however they interleave and whatever wakes up spuriously in between |
| `AddrMan.DeleteKeeps` | src/addrman.cpp:128-145 | deleting an entry between tables keeps order, tables and counts in agreement, and the index by address if it was right |
| `AddrMan.SwapRandomPermutes` | src/addrman.cpp:108-126 | swapping keeps vRandom and nRandomPos inverse to each other |
| `AddrMan.CreateKeeps` | src/addrman.cpp:91-106 | creating an entry keeps everything but the counter, which is one behind; the index by address stays right if the address was not in it |
| `AddrMan.ClearNewKeeps` | src/addrman.cpp:147-160 | freeing a new slot keeps the reference counts exact, deleting the entry that held no other |
| `AddrMan.MakeTriedKeeps` | src/addrman.cpp:162-208 | moving an entry to the tried table, with or without an eviction, restores soundness although it is broken in between, keeps a right index right, and leaves the rest of the entry alone |
| `AddrMan.GoodKeeps` | src/addrman.cpp:210-260 | `Good_` keeps the manager sound whatever mapAddr holds, and a right index right |
| `AddrMan.AddKeeps` | src/addrman.cpp:262-333 | the same for every path of `Add_` |
| `AddrMan.StepKeepsInv` | src/addrman.cpp:210-539 | every public operation keeps, without relying on mapAddr: vRandom a permutation inverse to nRandomPos, reference counts equal to the buckets held and between one and eight, tried entries exactly at their slots, counters exact; and mapAddr a bijection on normalised addresses if it was one |
| `AddrMan.EveryRunIsConsistent` | src/addrman.cpp:405-479 | hence after every run from a new manager all of that holds and nNew + nTried is the length of vRandom |
| `AddrMan.NewEntryHasBucket` | src/addrman.cpp:240-253 | the "no bucket found" exit of `Good_` is unreachable: every new entry sits in some bucket at its position |
| `AddrMan.FindFinds` | src/addrman.cpp:73-89 | a lookup finds an entry if and only if one has the normalised address |
| `AddrMan.GoodMakesTried` | src/addrman.cpp:210-260 | an address known with this very port is in the tried table afterwards, at its slot and in no new slot, with its statistics reset and nothing else of it changed, through an eviction too |
| `AddrMan.EvictedIsNew` | src/addrman.cpp:181-202 | the entry that had to go is a new one with one reference, in the slot of its own source |
| `AddrMan.GoodLosesAtMostOne` | src/addrman.cpp:162-260 | marking an address good costs at most one entry, never a tried one |
| `AddrMan.AddAgainLosesAtMostOne` | src/addrman.cpp:262-333 | adding a known address costs at most one entry and leaves the tried table alone |
| `AddrMan.AddFirstLosesAtMostOne` | src/addrman.cpp:262-333 | adding an unknown address costs at most one entry, possibly the new one |
| `AddrMan.TerribleMeans` | src/addrman.cpp:38-56 | which entries may be replaced: not tried in the last minute, and either from the future, unseen for a month, tried three times without any success, or failed ten times with no success for a week |
| `AddrMan.AddUnroutable` | src/addrman.cpp:262-265 | an address that cannot be routed to changes nothing |
| `AddrMan.AddToFreeSlot` | src/addrman.cpp:305-323 | an unknown address whose slot is free gets the next id, that slot and a fresh entry with its time made older by the penalty, unless it announces itself; the whole new state is stated |
| `AddrMan.AddToHeldSlot` | src/addrman.cpp:305-333 | an unknown address whose slot is held takes it exactly if the holder is terrible or has another slot; the holder loses one reference, or is deleted if it had no other; otherwise nothing is kept of the new address |
| `AddrMan.AddKnownExactly` | src/addrman.cpp:276-333 | a known address: how its time and services are renewed, exactly when it is offered a further slot, and that it takes a free slot or one whose holder is terrible, and no other |
| `AddrMan.GoodUnknown` | src/addrman.cpp:210-226 | for an address not known with this very port `Good_` notes the time of the success and nothing else |
| `AddrMan.AttemptExactly` | src/addrman.cpp:335-355 | a try of a known address is noted; it counts as a failure only on request and only if none was counted since the last success of any address; nothing else changes |
| `AddrMan.ConnectedExactly` | src/addrman.cpp:503-521 | a connection renews the time of the entry exactly if that is more than twenty minutes old; nothing else changes |
| `AddrMan.SetServicesExactly` | src/addrman.cpp:523-539 | the services of the entry are replaced; nothing else changes |
| `AddrMan.FailuresCountOnce` | src/addrman.cpp:210-355 | over every run without a success of any address, an entry has at most one failure more than before, whatever else happens to it |
| `AddrMan.CheckAddrPassesIff` | src/addrman.cpp:425-432 | the clause of `Check_` that looks entries up under their full service passes on a consistent manager if and only if ports are discriminated or every entry other than id 0 has port 0 |
| `AddrMan.CheckAddrFails` | src/addrman.cpp:425-432 | a run on which it fails: two additions from construction without port discrimination |
| `AddrMan.StepKeepsTimes` | src/addrman.cpp:210-539 | given positive times, every public operation keeps last tries and successes non-negative and tried entries with a success |
| `AddrMan.CheckPassesMeans` | src/addrman.cpp:405-479 | all clauses of `Check_` together pass if and only if the manager is sound, its times are in order, the full-service index agrees and the key is not null |
| `AddrMan.CheckOnRuns` | src/addrman.cpp:405-479 | hence on every run from construction with positive times and a key, `Check_` returns 0 if and only if ports are discriminated or no entry but id 0 has a port |
| `AddrManager.Manager.constructor` | src/addrman.h:455-474 | a constructed manager is the empty state, with all slots free and a right index |
| `AddrManager.Manager.FindId` | src/addrman.cpp:73-89 | the lookup on the maps is the lookup of the model |
| `AddrManager.Manager.CreateEntry` | src/addrman.cpp:91-106 | in place, what `Create` does to the state |
| `AddrManager.Manager.Swap` | src/addrman.cpp:108-126 | in place, the swap of two positions; no index leaves its range |
| `AddrManager.Manager.DeleteEntry` | src/addrman.cpp:128-145 | in place, what deleting does to the state; its asserts hold |
| `AddrManager.Manager.ClearSlot` | src/addrman.cpp:147-160 | in place on the table, the freeing of a new slot |
| `AddrManager.Manager.RemoveFromNew` | src/addrman.cpp:162-176 | the loop over all new buckets removes every reference to the entry and leaves its count at zero, as the source asserts |
| `AddrManager.Manager.MoveToTried` | src/addrman.cpp:162-208 | in place, the move to the tried table with its eviction; every assert holds |
| `AddrManager.Manager.SearchBucket` | src/addrman.cpp:240-249 | the loop from a random bucket finds one that holds the entry |
| `AddrManager.Manager.MarkGood` | src/addrman.cpp:210-260 | `Good_` on the tables is `Good` on the state; soundness is all it needs and it keeps that, and a right index right |
| `AddrManager.Manager.AddAddress` | src/addrman.cpp:262-333 | `Add_` on the tables is `Add` on the state, with the same promise, and reports exactly whether the address was unknown and routable |
| `AddrManager.Manager.MarkAttempt` | src/addrman.cpp:335-355 | `Attempt_` on the maps is `Attempt` on the state |
| `AddrManager.Manager.MarkConnected` | src/addrman.cpp:503-521 | `Connected_` on the maps is `Connected` on the state |
| `AddrManager.Manager.UpdateServices` | src/addrman.cpp:523-539 | `SetServices_` on the maps is `SetServices` on the state |
| `AddrManager.Manager.GetAddresses` | src/addrman.cpp:482-501 | the shuffle only reorders vRandom; distinct known addresses that are not terrible are returned, as many as there are up to 23 percent of the table and up to 2500 |
| `AddrManDisk.CountersFit` | src/addrman.h:370-376 | the counters of a consistent manager never exceed the limits that reading enforces |
| `AddrManDisk.Serialize` | src/addrman.h:298-346 | neither assert on the counters fires; the new and the tried entries are written by ascending id and every bucket as the numbers of the entries in it |
| `AddrManDisk.LoadedOrderly` | src/addrman.h:348-434 | whatever complete image is read, vRandom and nRandomPos stay inverse and ids stay below nIdCount, so pruning indexes in range |
| `AddrManDisk.PruneOrphans` | src/addrman.h:437-446 | exactly the new entries without a place are deleted, the others keep all but their place in vRandom |
| `AddrManDisk.Unserialize` | src/addrman.h:348-453 | an image is refused exactly for a wrong key size or counters over the limits; otherwise the result is the rebuilt state, pruned |
| `AddrManDisk.TriedsMirrored` | src/addrman.h:398-417 | no tried entry of a written image is lost to a collision |
| `AddrManDisk.BucketsRestored` | src/addrman.h:419-434 | every index of a written image goes back to the very slot it came from, and reference counts are exact at every point |
| `AddrManDisk.ReloadedImage` | src/addrman.h:298-453 | reading back what was written gives the same manager up to renumbering ids, and nothing is pruned |
| `AddrManDisk.StoreAndLoad` | src/addrman.h:298-453 | storing and loading a sound manager keeps key, counters, stored fields, reference counts and the occupied slots of both tables, and gives a sound one; its index is right if and only if normalising changes no address and no two entries share one, which for a right index before means ports discriminated or all stored ports 0 |
| `AddrManDisk.RestartLosesIndex` | src/addrman.h:378-417 | a run on which the index is lost: one addition from construction, then a restart, without port discrimination |
| `AddrManDisk.LoadedSoundIff` | src/addrman.h:348-453 | whatever complete image is read, the loaded manager is sound if and only if its two counters are not negative |
| `AddrManDisk.NewKeptIff` | src/addrman.h:378-397 | if the buckets of a file cannot be used, a new record is kept exactly if no earlier one has the slot of its source, and then sits there with one reference |
| `AddrManDisk.TriedKept` | src/addrman.h:399-419 | of the tried records exactly those whose slot no earlier one has are kept, at that slot, whatever else is in the file |
| `AddrManDisk.NegativeAccepted` | src/addrman.h:348-376 | a file with a negative counter that is accepted, and what it loads to is not sound |
| `AddrManDisk.EveryLifeIsSound` | src/addrman.cpp:210-539 | through any sequence of operations, restarts and starts from other files with such counters the manager stays sound |
| `AddrManDisk.ReloadedIndexedIff` | src/addrman.h:378-417 | the condition on the index, both ways |
| `Arith.BaseUint.constructor` | src/arith_uint256.h:35-39 | zero |
| `Arith.BaseUint.SetWord` | src/arith_uint256.h:91-98 | the number assigned |
| `Arith.BaseUint.GetLow64` | src/arith_uint256.h:247-251 | the number modulo 2^64 |
| `Arith.BaseUint.Add` | src/arith_uint256.h:138-147 | addition modulo 2^(32 * width), also of a number to itself |
| `Arith.BaseUint.Complement` | src/arith_uint256.h:72-78 | 2^(32 * width) - 1 - n |
| `Arith.BaseUint.Increment` | src/arith_uint256.h:175-182 | adding one modulo 2^(32 * width), by carrying while limbs wrap to zero |
| `Arith.BaseUint.Negate` | src/arith_uint256.h:80-87 | the two's complement is negation modulo 2^(32 * width) |
| `Arith.BaseUint.Subtract` | src/arith_uint256.h:149-153 | subtraction modulo 2^(32 * width), exact when nothing wraps |
| `Arith.BaseUint.CompareTo` | src/arith_uint256.cpp:112-122 | the order of the numbers, both ways |
| `Arith.BaseUint.EqualTo` | src/arith_uint256.cpp:124-136 | equality with a 64-bit number, both ways |
| `Arith.BaseUint.ProductFits` | src/arith_uint256.cpp:70-84 | a product of limbs with two addends never overflows 64 bits |
| `Arith.BaseUint.MultiplyWord` | src/arith_uint256.cpp:58-68 | the product with a 32-bit word modulo 2^(32 * width) |
| `Arith.BaseUint.MultiplyRow` | src/arith_uint256.cpp:76-82 | one row of the schoolbook product, truncated |
| `Arith.BaseUint.Multiply` | src/arith_uint256.cpp:70-84 | the product modulo 2^(32 * width); zero when a number is multiplied by itself through an alias |
| `Arith.BaseUint.ShiftLeft` | src/arith_uint256.cpp:24-39 | multiplication by 2^shift modulo 2^(32 * width), for any shift |
| `Arith.BaseUint.ShiftRight` | src/arith_uint256.cpp:41-56 | floor division by 2^shift, for any shift |
| `Arith.BaseUint.Bits` | src/arith_uint256.cpp:174-187 | the r with 2^(r-1) <= n < 2^r, and 0 exactly for 0 |
| `Arith.BaseUint.QuotientBit` | src/arith_uint256.cpp:100-107 | one turn of the long division keeps dividend = quotient * divisor + rest with the rest below the shifted divisor |
| `Arith.BaseUint.DivideBy` | src/arith_uint256.cpp:86-110 | the exact floor quotient for every non-zero divisor, also by itself; division by zero is refused |
| `Compact.SetCompact` | src/arith_uint256.cpp:207-225 | the target is mantissa * 256^(exponent - 3) modulo 2^256; the overflow flag is set if and only if that reaches 2^256, the negative flag if and only if it is not zero and the sign bit is set |
| `Compact.OverflowIff` | src/arith_uint256.cpp:220-223 | the three size tests say exactly that the bytes do not fit |
| `Compact.GetCompact` | src/arith_uint256.cpp:227-248 | the exponent and the normalised leading mantissa of the number, whose asserts hold |
| `Compact.EncodesUnique` | src/arith_uint256.cpp:227-248 | a number has one such encoding |
| `Compact.RoundTrip` | src/arith_uint256.cpp:207-248 | decoding an encoding never exceeds the number, is exact for exponents up to 3 and else off by less than 256^(exponent - 3), keeps the sign, and encodes to the same word |
| `Compact.CompactRoundTrip` | src/arith_uint256.cpp:207-248 | for every 256-bit number: no flag is raised, the error bound holds, and encoding again gives the same word |
| `Compact.ReencodesIff` | src/arith_uint256.cpp:207-248 | the number a word stands for, unbounded, encodes to that word if and only if the word is canonical |
| `Compact.WordRoundTrip` | src/arith_uint256.cpp:207-248 | a word comes back from `SetCompact` and `GetCompact` if and only if it is canonical and does not overflow 256 bits |
| `Compact.CanonicalMayOverflow` | src/arith_uint256.cpp:207-226 | a canonical word that does overflow |
| `Compact.NotAllOnes` | src/chain.cpp:126-139 | no compact target is 2^256 - 1, so target + 1 is never zero |
| `Compact.GetBlockProof` | src/chain.cpp:126-139 | floor(2^256 / (target + 1)) for a target in range and 0 otherwise; the division is never by zero |
| `Base58.AlphabetText` | src/base58.cpp:24-25 | the alphabet of the model is that of the source |
| `Base58.AppendDigit` | src/base58.cpp:110-119 | the carry loop multiplies the number in the buffer and adds a digit; no carry is left, so the assert holds |
| `Base58.EncodeFits` | src/base58.cpp:148-150 | n bytes always fit into n * 138 / 100 + 1 digits |
| `Base58.DecodeFits` | src/base58.cpp:101-103 | n digits always fit into n * 733 / 1000 + 1 bytes |
| `Base58.EncodeBase58` | src/base58.cpp:139-177 | the text has as many leading ones as the data leading zero bytes, and the same value |
| `Base58.DecodeBase58` | src/base58.cpp:89-137 | accepted exactly is white space around base-58 digits up to a NUL; the bytes have the leading zeros and the value of the digits |
| `Base58.SameUnique` | src/base58.cpp:89-177 | leading zeros and value determine a digit string |
| `Base58.EncodeThenDecode` | src/base58.cpp:89-177 | every byte string comes back |
| `Base58.DecodeThenEncode` | src/base58.cpp:89-177 | every text that decodes comes back without the white space around it |
| `Base58.EncodeBase58Check` | src/base58.cpp:189-196 | the data followed by four bytes of its hash, encoded |
| `Base58.DecodeBase58Check` | src/base58.cpp:198-213 | accepted exactly are texts that decode to data followed by its checksum |
| `Base58.CheckRoundTrip` | src/base58.cpp:189-213 | data survives whatever the hash function |
| `CuckooCache.Cache.constructor` | src/cuckoocache.h:315-329 | an empty cache: every slot holds the given element and may be collected, the epoch size is 45 percent of the size, and a whole epoch is left until the first scan |
| `CuckooCache.Cache.EpochCheck` | src/cuckoocache.h:264-296 | afterwards the recent elements and the counter together leave room for one insert within epoch_size + max(1, epoch_size / 16); elements are aged or dropped only by a scan that found a full epoch |
| `CuckooCache.Cache.NextSlot` | src/cuckoocache.h:395-406 | the displaced location is the one after the one last used, in a ring, or the second if that one is not among them |
| `CuckooCache.NextInRing` | src/cuckoocache.h:390-406 | with eight different locations what was just put down is not moved back |
| `CuckooCache.Cache.FirstMove` | src/cuckoocache.h:370-411 | the new element itself goes to its second location, and what was there is moved next |
| `CuckooCache.Cache.Insert` | src/cuckoocache.h:368-417 | the chain of displaced elements is fixed by the table, the element and its hash locations alone. The insertion succeeds if and only if a copy is found or one of the first depth_limit elements of the chain has a collectable location; the first that has one takes the first such location. Otherwise the element displaced last is lost. The table is stated cell by cell in each case, and the live elements are the old ones plus the new one minus at most that one |
| `CuckooCache.Cache.Contains` | src/cuckoocache.h:443-453 | true exactly if one of the eight locations, each a hash reduced to the size of the table, holds the element; every live element is found; nothing changes but, on request, the collection flag of the first location that holds it |
| `CuckooCache.Cache.InsertEraseFind` | src/cuckoocache.h:368-453 | an erasing lookup after an insertion finds the element unless the insertion dropped that element again, and a further lookup finds it exactly if the erasing one did |
| `CuckooCache.Cache.Run` | src/cuckoocache.h:264-453 | over every run of inserts and erasing lookups the live elements of the current epoch never exceed epoch_size + max(1, epoch_size / 16), every live element sits at one of its eight locations, and a lookup finds only what was in the table or was inserted before |
| `CuckooCache.Cache.FromSetup` | src/cuckoocache.h:315-453 | from setup on only inserted elements are found, and the default element that fills the new table, which is found although never inserted |
| `CuckooCache.AgedLive` | src/cuckoocache.h:281-287 | ageing drops exactly the elements of the older epoch and makes the recent ones old |
| `RollingBloom.Filter.constructor` | src/bloom.cpp:209-234 | an empty filter, with half of the elements, rounded up, to a generation and two bits for each position |
| `RollingBloom.Filter.Reset` | src/bloom.cpp:298-306 | all tags cleared, nothing remembered |
| `RollingBloom.Filter.Wipe` | src/bloom.cpp:250-258 | the mask clears exactly the tags equal to the new generation number |
| `RollingBloom.Filter.BeginGeneration` | src/bloom.cpp:244-259 | reusing a generation number forgets exactly what was written three generations ago |
| `RollingBloom.Filter.WriteTag` | src/bloom.cpp:263-268 | one position gets the generation number, all others keep their tags |
| `RollingBloom.Filter.Insert` | src/bloom.cpp:242-270 | every position has the tag of its last write if that was within three generations, and none otherwise; each of those writes was for a key of that generation, at a position of that key; the key is recorded |
| `RollingBloom.Filter.Contains` | src/bloom.cpp:278-290 | true if and only if each hash function takes the key to a position where some key of this or the two previous generations was put, stated over the hash values; so each of the last 2 * ceil(N / 2) keys and those of the current generation are found, and nothing is found after a reset |
| `RollingBloom.TaggedIff` | src/bloom.cpp:260-290 | a position is tagged exactly if a key of the last three generations was put there |
| `RollingBloom.Filter.InsertAll` | src/bloom.cpp:242-270 | so after any run of inserts since a reset |
| `RollingBloom.NextEraSound` | src/bloom.cpp:244-259 | a new generation still covers the keys of the two before it |
| `Chain.InvertClearsLowest` | src/chain.cpp:74-75 | n & (n - 1) is n without its lowest set bit |
| `Chain.GetSkipHeight` | src/chain.cpp:77-87 | always a lower height |
| `Chain.SkipHeightInBinary` | src/chain.cpp:77-87 | which height: the lowest set bit of an even height is cleared, the lowest two above the last bit of an odd one |
| `Chain.BlockIndex.GetAncestor` | src/chain.cpp:89-113 | the skip list gives the block the walk from parent to parent gives, null outside the range of heights; the assert holds |
| `Chain.BlockIndex.BuildSkip` | src/chain.cpp:120-124 | the skip pointer goes to the ancestor at its skip height |
| `Chain.BlockTree.AddBlock` | src/validation.cpp:3872-3894 | a tree of blocks grown by linking and `BuildSkip` keeps all skip pointers right |
| `Chain.BlockTree.Lookup` | src/chain.cpp:89-113 | in any such tree the skip list agrees with the parent walk |
| `Chain.ActiveChain.SetTip` | src/chain.cpp:13-24 | the loop that stops at the first block in place leaves exactly the path to the new tip, which is its tip and gives its height |
| `Chain.ActiveChain.ContainsIff` | src/chain.h:497-500 | one look at the height of a block tells whether it is in the chain |
| `Chain.ActiveChain.SetTips` | src/chain.cpp:13-24 | after any sequence of tips, null among them, the chain is the path to the last |
| `Chain.ActiveChain.FindFork` | src/chain.cpp:55-65 | a block of the chain that is an ancestor of the given one, such that no higher ancestor is in the chain, or null if none is; a block of the chain is its own fork |
| `Chain.ActiveChain.GetLocator` | src/chain.cpp:26-53 | ancestors at the exact distances 0 to 11 and then 9 + 2^k below the start, strictly descending, ending at the genesis block, at most 12 + log2(height) of them; the doubling stride overflows an int if and only if the height exceeds 2^30 + 9 |
| `Chain.LocatorLength` | src/chain.cpp:34-50 | the logarithmic bound on the length |
| `BlockEncodings.FromBlock` | src/blockencodings.cpp:22-32 | the compact block describes the block: coinbase prefilled, the i-th other transaction under the i-th short id, for blocks of any size |
| `BlockEncodings.PlacePrefilled` | src/blockencodings.cpp:61-80 | accepted exactly if every prefilled transaction is real and leaves no slot before it without a source; then the slots hold exactly these, in bounds |
| `BlockEncodings.MapShortIds` | src/blockencodings.cpp:86-108 | the second loop ends if and only if there are no short ids or at most 65535 prefilled slots; then the i-th short id leads to the i-th slot that is not prefilled, its number cut to 16 bits, and it is refused exactly for a collision or a bucket that is too full |
| `BlockEncodings.SkipFilled` | src/blockencodings.cpp:88-89 | the inner loop with its 16-bit offset ends if and only if some round meets an empty slot, which is so if and only if at most 65535 slots are filled; it then stops at the next empty one |
| `BlockEncodings.EndlessMessage` | src/blockencodings.cpp:64-92 | a message that passes all tests before that loop and on which it does not end |
| `BlockEncodings.InOrderExactly` | src/blockencodings.cpp:86-92 | every short id leads to its own slot if and only if there are at most 65536 slots (or no short ids) |
| `BlockEncodings.DistinctMeans` | src/blockencodings.cpp:105-108 | no short id repeats an earlier one, which is what the size of the map tells, exactly if no two are equal |
| `BlockEncodings.Scan` | src/blockencodings.cpp:110-169 | a slot holds an offer exactly if the first one looked at for it is followed only by extra ones that are the same transaction, and then that one; a slot nobody offered for is untouched; the count is that of the slots so filled; the loop ends early only when every slot with a short id is filled |
| `BlockEncodings.CountedAll` | src/blockencodings.cpp:132-136 | the count reaching the number of short ids means that every slot a short id stands for holds an offer |
| `BlockEncodings.UniqueIsFilled` | src/blockencodings.cpp:110-169 | a slot with exactly one matching offer is filled with it, in spite of both early exits |
| `BlockEncodings.PrefilledStay` | src/blockencodings.cpp:53-174 | up to 65536 slots no prefilled transaction is replaced, and prefilled_count and mempool_count add up to the slots filled |
| `BlockEncodings.PartiallyDownloadedBlock.InitData` | src/blockencodings.cpp:53-174 | for every message: invalid exactly for a null header, an empty or oversized block or misplaced prefilled transactions; endless exactly for an admitted one with short ids and more than 65535 prefilled transactions; failed exactly for other admitted ones with colliding ids or a crowded bucket; otherwise every slot is as the placing, the map of ids and both search loops promise |
| `BlockEncodings.PartiallyDownloadedBlock.FillBlock` | src/blockencodings.cpp:183-225 | the missing transactions go to the empty slots in order; invalid exactly for a wrong number of them; with too few the header stays and exactly the slots before the first unserved one are emptied, otherwise the block cannot be filled again; with the right number a good block is answered with ok, a corrupt one with failed and a bad one with check-block-failed |
| `BlockEncodings.PartiallyDownloadedBlock.MissingIndexes` | src/net_processing.cpp:2214-2218 | the request lists the empty slots in order, as 16-bit numbers |
| `BlockEncodings.SendTransactions` | src/net_processing.cpp:1287-1302 | answered exactly if every index is within the block, with the transactions asked for |
| `BlockEncodings.InitAgrees` | src/blockencodings.cpp:53-174 | absent collisions, whatever is in a slot is the transaction of the block |
| `BlockEncodings.FillRebuilds` | src/blockencodings.cpp:183-225 | then filling with what was missing rebuilds the list |
| `BlockEncodings.Relay` | src/blockencodings.cpp:22-225 | absent collisions: announcing, placing what the receiver has, requesting the rest by index through the wire format, answering and filling. With up to 65536 transactions this gives the original list and the verdict of `CheckBlock`, unless short ids are equal or a bucket is crowded; with more, and a last transaction that differs from the one at its number cut to 16 bits, it never does; above the size limit the block is refused |
| `BlockEncodings.HighSlotsEmpty` | src/blockencodings.cpp:53-174 | slots beyond 65536 stay empty whatever is offered |
| `BlockEncodings.WrongBeyond` | src/blockencodings.cpp:86-137 | besides, above 65536 slots an offer of the last transaction goes to a wrong slot |
| `BlockEncodings.WriteIndexes` | src/blockencodings.h:66-70 | each index as the difference to the one before, in unsigned 64 bits |
| `BlockEncodings.ReadIndexes` | src/blockencodings.h:46-65 | accepted exactly if every number and every running index fits 16 bits; the list is that of the running indexes |
| `BlockEncodings.RequestRoundTrip` | src/blockencodings.h:40-72 | a list of 16-bit indexes comes back if it is strictly increasing and is refused otherwise |
| `BlockEncodings.ReadableIncreasingIff` | src/blockencodings.h:59-65 | an accepted list is strictly increasing if and only if no index but the last is 65535 |
| `BlockEncodings.OffsetWraps` | src/blockencodings.h:59-65 | an accepted stream that is not increasing, because the 16-bit offset wraps |
| `Bip39.FromData` | src/bip39.cpp:68-105 | for 16 to 32 bytes in fours, the sentence of the words whose eleven-bit indexes are the bits of the data and of the first hash byte; nothing for other lengths |
| `Bip39.AppendIndex` | src/bip39.cpp:225-232 | the eleven bits of a word go to the next places of the buffer and change no other |
| `Bip39.SplitSentence` | src/bip39.cpp:188-236 | the words of a sentence are those it was made of |
| `Bip39.Check` | src/bip39.cpp:174-256 | accepted exactly is a text of 12, 18 or 24 known words whose repacked bits carry the leading bits of the hash of the entropy |
| `Bip39.Repacked` | src/bip39.cpp:200-236 | the repacked bits start with the data |
| `Bip39.RoundTrip` | src/bip39.cpp:68-256 | a mnemonic made from data is accepted if and only if the data has 16, 24 or 32 bytes, for any hash and any proper word list, and its bits are the data |
| `Bip39.CheckExactly` | src/bip39.cpp:68-256 | `Check` accepts a text if and only if it is what `FromData` makes of some 16, 24 or 32 bytes |
| `Compressor.CompressAmount` | src/compressor.cpp:139-156 | the code of the amount modulo 2^64 |
| `Compressor.DecompressAmount` | src/compressor.cpp:158-182 | the amount of the code modulo 2^64 |
| `Compressor.UnpackPacked` | src/compressor.cpp:130-182 | without wrap-around, decompressing undoes compressing |
| `Compressor.PackUnpacked` | src/compressor.cpp:130-182 | and compressing undoes decompressing |
| `Compressor.FitsIff` | src/compressor.cpp:139-156 | the code of a 64-bit amount does not wrap if and only if the amount ends in zero or is at most 2049638230412172402 |
| `Compressor.LostAbove` | src/compressor.cpp:139-182 | every other amount decodes to a different one: no wrapped code leads back by accident |
| `Compressor.AmountRoundTrip` | src/compressor.cpp:139-182 | a 64-bit amount comes back if and only if it ends in zero or is at most 2049638230412172402 |
| `Compressor.CodeRoundTrip` | src/compressor.cpp:139-182 | a 64-bit code comes back if and only if its amount fits 64 bits |
| `Compressor.LargestAmountIsLost` | src/compressor.cpp:139-182 | the code of 2^63 - 1, the largest amount allowed, wraps and decodes to another amount |

## Left out

- The best-block hash that the coin caches carry along; `Flush` may pass a null hash.
- Thread interruption and `fQuit` of the check queue, which is never set.
- `Select_` and `GetChance` of the address manager: floating point and a loop that ends only with probability one.
- `nIdCount` of the address manager is an unbounded integer in the model.
- AddrManDisk.Unserialize: works on a state value, not in place on the bucket arrays, and reads a complete image, not a stream that may end early.
- CuckooCache.Cache.constructor: the depth limit is a parameter in place of the float logarithm of the size; the bit packing of the collection flags is not modelled.
- RollingBloom.Filter.constructor: the sizes are parameters in place of floating-point formulas; a filter for no elements, whose table has no words to take a remainder by, is left out.
- The plain bloom filter, which would only add easier members.
- BlockEncodings.Relay: beyond 65536 transactions nothing is said of a block whose last transaction equals the one at its number cut to 16 bits; such a block repeats a transaction.
- `extra_count` of compact blocks, a statistic for the log.
- Reading and writing of streams byte by byte (compact sizes, chunked resizing).
- Chain.ActiveChain.GetLocator: returns the blocks, not their hashes; what happens after the stride has overflowed is undefined in the source.
- `FindEarliestAtLeast` and `GetBlockProofEquivalentTime`.
- Bip39.RoundTrip: asks for words that are not empty, as those of the source's list are.
- Seed derivation from a mnemonic, hash functions, signatures and key handling.
- Script compression next to amount compression, which needs elliptic-curve decompression.
- The version prefix handling of `CBase58Data` and address types.
- Governance, masternodes, networking, RPC, storage engines and configuration.
