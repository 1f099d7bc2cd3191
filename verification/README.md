# A verified model of TBCNODE's core data structures

TBCNODE is a full node of the Bitcoin family. This project models seven parts of it
whose correctness rests on more than one function, and proves what each promises:

- **Coins views** (`Coins.dfy`, `CoinsCache.dfy`): a stack of write-back caches over a
  database. Every layer stands for a plain map of unspent coins, and any run of adds,
  spends, reads, uncaches, flushes at any level, pushes and pops agrees with plain maps.
- **Check queue and its pool** (`CheckQueue.dfy`, `CheckQueuePool.dfy`): the protocol of
  master and workers as a state machine, one step for each critical section, read of the
  session token and run of a check. Theorems hold in every reachable state.
- **Address manager** (`AddrMan.dfy`, `AddrManager.dfy`, `AddrManCheck.dfy`,
  `AddrManLoading.dfy`, `AddrManStream.dfy`, `AddrManReading.dfy`, `AddrManSerial.dfy`): the
  four cross-linked indexes, every operation on them, the function that checks them, and the
  stream they are saved in.
- **Cuckoo cache and rolling Bloom filter** (`CuckooCache.dfy`, `RollingBloom.dfy`).
- **Block tree and active chain** (`BlockTree.dfy`, `ActiveChain.dfy`): fast pointer walks
  against the walk over parents.
- **256-bit arithmetic, compact targets and Base58** (`ArithUint256.dfy`,
  `CompactTarget.dfy`, `Base58.dfy`), over the number theory of `Arithmetic.dfy`.
- **Compact block reconstruction** (`CompactBlocks.dfy`).

Objects that the source updates in place are classes, or arrays where an object is an
array of limbs or digits. Their methods are proved against functions and predicates on
values, about which the laws are proved as lemmas. Hash functions are arbitrary functions,
clock readings are arguments, random choices are arbitrary, and the order in which a hash
table is visited is left open.

Some promises of the source turn out not to hold as stated. The model follows the code, and
the exact condition is proved instead:

- `AddCoin` without `possible_overwrite` over a coin that only the base holds succeeds but
  leaves a FRESH entry above an unspent coin, and spending it then brings the old coin back
  (`Coins.WrongOverwriteResurrects`). The invariant survives `AddCoin` if and only if the
  caller keeps to the documented contract (`Coins.AddCoinKeepsConsistencyIff`).
- `x *= x` on one 256-bit object leaves zero, because the operand is read after the result
  is cleared. That is the right value if and only if x is a multiple of 2^128
  (`ArithUint256.MulAssign`). The binary `*` copies, and is not affected.
- A comment in `InitData` (src/blockencodings.cpp:104) rules out an overflow that occurs:
  `index + 1` is computed in 32 bits and is zero for the largest index, so that a prefilled
  transaction may be put over the one before it (`CompactBlocks.WrappedAccepted`). All
  accesses are in range but for messages whose first index is the largest and that have at
  least 2^32 - 1 short ids (`CompactBlocks.PartiallyDownloadedBlock.PlacePrefilled`). Those
  apart, a message passes without such an index if and only if it is well-formed
  (`CompactBlocks.AcceptedIff`).
- Positions of short ids are kept in 32 bits (src/blockencodings.cpp:127-135). They are kept
  whole if and only if the last of them is (`CompactBlocks.PositionsKeptIff`), which every
  block of at most 2^32 transactions ensures.
- The comment in `insert` of the cuckoo cache (src/cuckoocache.h:394-395) says that the
  first exchange is with `locs[0]`; it is with `locs[1]`, and so with `locs[0]` if and only if
  the two are equal (`CuckooCache.FirstExchange`).
- The same comment says that the element just put in is not moved (src/cuckoocache.h:400). It
  is exchanged straight back if the evicted element has that slot twice in a row
  (`CuckooCache.Cache.ExchangedBack`), and stays if and only if it has not
  (`CuckooCache.MovesOnIff`).
- `Check_` of the address manager does not always return 0
  (`AddrManCheck.FailingRun`). After any run from a new manager it does so if and only if the
  times stored are in order and the key is not null (`AddrManCheck.RunAndCheck`). `Good_`
  keeps the times in order exactly if it is given a positive one, and `Attempt_` exactly if it
  is given one that is not negative.
- `Unserialize` accepts streams that give no consistent manager: with one service among the
  new and the tried entries (`AddrManReading.SharedLoads`), or with a negative count
  (`AddrManReading.NegativeLoads`). What an accepted stream gives is consistent if and only if
  its counts are not negative and no entry that is kept has the address of another one read,
  where the stream alone tells which are kept (`AddrManReading.Unserialize`,
  `AddrManStream.Loadable`).

## Model

| member | source | states |
|---|---|---|
| `Coins.FetchIsTransparent` | src/coins.cpp:78-101 | fetching a coin through caches of any depth finds exactly the unspent coin and changes the unspent set of no layer, and keeps the flag invariant |
| `Coins.UncacheIsTransparent` | src/coins.cpp:323-329 | uncaching changes the unspent set of no layer and keeps the flag invariant |
| `Coins.SpendCoinRemoves` | src/coins.cpp:158-175 | spending removes just that coin from the top layer, whether the entry is erased (FRESH) or kept as spent and dirty, and succeeds on every unspent coin |
| `Coins.AddCoinAdds` | src/coins.cpp:113-141 | under the documented contract adding does not throw, adds just that coin to the top layer and keeps the invariant; unspendable outputs change nothing |
| `Coins.AddCoinKeepsConsistencyIff` | src/coins.cpp:113-141 | exactly when adding throws, and that otherwise the invariant survives if and only if overwriting was allowed or there was nothing to overwrite |
| `Coins.WrongOverwriteResurrects` | src/coins.h:100-110 | a FRESH entry above an unspent coin: spending the new coin brings the old one back |
| `Coins.MergedEntryOk` | src/coins.cpp:226-277 | for entries that are right for their layers, merging a child entry never meets a misapplied FRESH flag, and the entry left is right for the layer below and shows the child's coin |
| `Coins.MergeAllOverlay` | src/coins.cpp:221-283 | merging all entries makes the parent show what the child showed, keeps the parent's invariant over the grandparent, and never throws |
| `Coins.BatchWriteAdopts` | src/coins.cpp:221-283 | on a database or a cache, the written view shows exactly the child's unspent set and what is below is untouched |
| `Coins.FlushMovesDown` | src/coins.cpp:310-316 | flushing empties the cache, keeps its own view and makes the parent's view equal to it |
| `Coins.StepAgrees` | src/coins.cpp:78-329 | each operation at any level of a consistent stack succeeds, keeps consistency and changes the layers as it changes a stack of plain ledgers |
| `Coins.RunAgrees` | src/coins.cpp:78-329 | the same for every run: after any sequence of operations each layer's unspent set is the plain ledger built by the same adds, spends and flushes, nothing has thrown, and memory accounting is exact |
| `CoinsCache.CoinsViewDB.BatchWrite` | src/txdb.cpp:85-140 | the loop over the entries, in any order, erases the spent dirty ones and writes the other dirty ones |
| `CoinsCache.CoinsViewCache.OverDatabase` | src/coins.cpp:70-71 | a new cache over a database is empty and shows it |
| `CoinsCache.CoinsViewCache.OverCache` | src/coins.cpp:70-71 | a new cache over a cache is empty and shows it |
| `CoinsCache.CoinsViewCache.GetCoin` | src/coins.cpp:78-111 | the chain of objects changes and answers as fetching on its value does |
| `CoinsCache.CoinsViewCache.HaveCoin` | src/coins.cpp:192-200 | true exactly for the unspent set, and no layer's view changes |
| `CoinsCache.CoinsViewCache.AccessCoin` | src/coins.cpp:179-190 | the unspent coin, or a spent one if there is none |
| `CoinsCache.CoinsViewCache.TryAddCoin` | src/coins.cpp:113-141 | throws exactly when the specification does, and otherwise reaches its state, memory accounting included |
| `CoinsCache.CoinsViewCache.AddCoin` | src/coins.cpp:113-141 | used as documented it never throws and adds just that coin |
| `CoinsCache.CoinsViewCache.Spend` | src/coins.cpp:158-175 | the state after spending and the coin moved out |
| `CoinsCache.CoinsViewCache.SpendCoin` | src/coins.cpp:158-175 | removes just that coin, returns it, and leaves the layers below alone |
| `CoinsCache.CoinsViewCache.Uncache` | src/coins.cpp:318-329 | drops an entry only if it is neither dirty nor fresh, and no view changes |
| `CoinsCache.CoinsViewCache.MergeOne` | src/coins.cpp:226-277 | one entry of the batch: throws exactly on a misapplied FRESH flag, changes that entry only, and keeps the usage counter exact |
| `CoinsCache.CoinsViewCache.MergeEntries` | src/coins.cpp:221-283 | the loop in any order reaches the merge of all entries, and throws exactly if some entry is misapplied |
| `CoinsCache.CoinsViewCache.BatchWrite` | src/coins.cpp:221-283 | the object reaches the specified state or throws exactly when specified |
| `CoinsCache.CoinsViewCache.Flush` | src/coins.cpp:310-316 | never fails on a valid stack; the parent shows what the cache shows, and the cache is empty with usage zero |
| `CoinsCache.CoinsViewCache.HaveInputs` | src/coins.cpp:369-382 | true exactly if it is a coinbase or every input is unspent; no view changes |
| `CoinsCache.AddCoins` | src/coins.cpp:143-156 | adds all spendable outputs of a transaction to the unspent set and nothing else |
| `CheckQueue.StepKeeps` | src/checkqueue.h:138-250 | every step of master, worker or token keeps the invariant: counters exact, each check in exactly one place, verdicts earned |
| `CheckQueue.RunKeeps` | src/checkqueue.h:138-250 | the invariant holds after every interleaving |
| `CheckQueue.ReachableInv` | src/checkqueue.h:258-285 | every state reachable from a new queue with any number of workers satisfies the invariant |
| `CheckQueue.WaitAnswers` | src/checkqueue.h:152-249 | Wait answers true only if the token was not cancelled and every check added ran exactly once and was true; false only if some check was false; empty only if the token was cancelled or some check was empty; and with no cancellation and no failing check it can only answer true |
| `CheckQueue.NoCheckRunsTwice` | src/checkqueue.h:231-249 | no check runs twice, and only added checks run |
| `CheckQueue.CountersExact` | src/checkqueue.h:152-238 | whenever the mutex is free, nTodo is the queue length plus all batches in flight, and nTotal minus nIdle counts the batch holders |
| `CheckQueue.IdleAfterWait` | src/checkqueue.h:380-406 | after Wait has returned the queue is idle and a session can be started |
| `CheckQueue.NoLostWakeUp` | src/checkqueue.h:172-222 | when the master sleeps with no notification pending, some worker holds a batch, so it will be notified |
| `CheckQueue.ReportLowersTodo` | src/checkqueue.h:162-178 | each batch reported lowers nTodo by at least its size, which is at least one |
| `CheckQueue.WaitProgress` | src/checkqueue.h:147-250 | during Wait every step but a spurious wake-up or a cancellation uses up effort |
| `CheckQueue.WaitNeverStuck` | src/checkqueue.h:147-250 | during Wait some step that makes progress is always possible |
| `CheckQueue.WaitBounded` | src/checkqueue.h:147-250 | a Wait takes no more steps than the effort it starts with and three for each idle step |
| `CheckQueuePool.PoolIsSafe` | src/checkqueuepool.h:227-312 | in every state of the invariant the asserts of GetChecker and ReturnQueueToPool hold and StartCheckingSession does not throw |
| `CheckQueuePool.SomeoneRuns` | src/checkqueuepool.h:234-237 | with no idle queue there is a running checker to look at |
| `CheckQueuePool.PoolStepKeeps` | src/checkqueuepool.h:227-312 | every step keeps the idle and the lent queues a partition of all queues, each in a reachable state that suits its place |
| `CheckQueuePool.InitialInv` | src/checkqueuepool.h:162-186 | a new pool satisfies the invariant |
| `CheckQueuePool.PoolRunSafe` | src/checkqueuepool.h:79-312 | the same over every run of the pool, its checkers and their threads |
| `CheckQueuePool.FindWorst` | src/checkqueuepool.h:239-251 | the loop finds a checker of least value and, among those, of earliest start |
| `AddrMan.SwapLinked` | src/addrman.cpp:103-119 | swapping two places keeps vRandom and nRandomPos inverse and all other links |
| `AddrMan.CreateKeeps` | src/addrman.cpp:92-101 | a new id is unused, and creating keeps every link |
| `AddrMan.DeletePossible` | src/addrman.cpp:121-132 | the asserts of Delete and of its swap hold for an unreferenced new entry |
| `AddrMan.DeleteKeeps` | src/addrman.cpp:121-132 | deleting keeps every link of the other entries |
| `AddrMan.ClearNewPossible` | src/addrman.cpp:134-146 | the asserts met while clearing a slot hold |
| `AddrMan.ClearNewKeeps` | src/addrman.cpp:134-146 | clearing a slot keeps every link, and deletes the entry exactly when that was its last reference |
| `AddrMan.StripFrame` | src/addrman.cpp:149-159 | after the loop over all new buckets the entry has no reference, every link is kept and no other entry changes its place in the tables |
| `AddrMan.StripIs` | src/addrman.cpp:149-159 | the loop takes away exactly the slots of the entry and its count of references, and nothing else of the manager changes |
| `AddrMan.MakeRoomLinked` | src/addrman.cpp:165-188 | moving the holder of a tried slot back to the new table keeps every link |
| `AddrMan.MakeTriedKeeps` | src/addrman.cpp:148-194 | for a consistent manager no assert of MakeTried fires, the entry ends up tried, and the manager is consistent again |
| `AddrMan.MakeTriedTrims` | src/addrman.cpp:148-194 | no entry appears, and one that is dropped was new with a single reference |
| `AddrMan.MakeTriedStats` | src/addrman.cpp:148-194 | no address, time stamp or counter of attempts of any entry changes |
| `AddrMan.MakeTriedTable` | src/addrman.cpp:148-194 | of the tried table just the slot of the entry changes |
| `AddrMan.InsertLands` | src/addrman.cpp:305-308 | giving an entry a slot, whoever holds it, makes the manager consistent |
| `AddrMan.InsertTrims` | src/addrman.cpp:305-308 | doing so drops at most an entry that had a single reference |
| `AddrManager.Write` | src/addrman.h:213-219 | writing a bucket array changes the table of occupied slots at that slot only |
| `AddrManager.AddrManager.constructor` | src/addrman.h:483-504 | a new manager is empty and consistent |
| `AddrManager.AddrManager.SwapRandom` | src/addrman.cpp:103-119 | the object reaches the specified state |
| `AddrManager.AddrManager.Create` | src/addrman.cpp:92-101 | the object reaches the specified state |
| `AddrManager.AddrManager.Delete` | src/addrman.cpp:121-132 | the object reaches the specified state, and its asserts hold |
| `AddrManager.AddrManager.ClearNew` | src/addrman.cpp:134-146 | the object reaches the specified state |
| `AddrManager.AddrManager.StripReferences` | src/addrman.cpp:149-156 | the loop takes away exactly the slots that hold the entry |
| `AddrManager.AddrManager.VacateTried` | src/addrman.cpp:165-188 | the object reaches the specified state |
| `AddrManager.AddrManager.MakeTried` | src/addrman.cpp:148-194 | from a consistent manager: the entry becomes tried, the manager is consistent, and only entries with a single reference may be dropped |
| `AddrManager.AddrManager.Find` | src/addrman.cpp:83-90 | finds the id of a known address, or reports that there is none |
| `AddrManager.AddrManager.FindBucket` | src/addrman.cpp:222-236 | the search from a random start always finds a bucket the entry is in, so the exit without one is never taken |
| `AddrManager.AddrManager.Good` | src/addrman.cpp:196-242 | a known service ends up tried in its slot with fresh statistics, an unknown one changes nothing, consistency is kept, and times stay in order exactly if a known service is given a positive time |
| `AddrManager.AddrManager.Attempt` | src/addrman.cpp:318-337 | the entries after it: only the statistics of that one change, and how |
| `AddrManager.AttemptTimes` | src/addrman.cpp:318-337 | times stay in order exactly if the time given is not negative |
| `AddrManager.AddrManager.Connected` | src/addrman.cpp:480-495 | the entries after it: only the time of that one changes, and only if it is more than twenty minutes old |
| `AddrManager.AddrManager.SetServices` | src/addrman.cpp:497-511 | the entries after it: only the services of that one change |
| `AddrManager.AddrManager.Refresh` | src/addrman.cpp:257-284 | what is updated of a known address, and when it may get one more reference |
| `AddrManager.AddrManager.Place` | src/addrman.cpp:293-314 | the entry takes the slot its source selects exactly if that is free, its own, held by a terrible entry, or held by one with other slots while it has none; without any slot it is deleted |
| `AddrManager.AddrManager.Add` | src/addrman.cpp:244-316 | keeps consistency; when the address is new, and exactly when a new one is not dropped at once; which entries may appear and disappear, and that all others keep address and statistics |
| `AddrManager.AddrManager.GetAddr` | src/addrman.cpp:463-478 | at most 23 percent and 2500 addresses, none twice and none terrible; fewer than that only if every other entry is terrible; and only the order of vRandom changes |
| `AddrManager.Run` | src/addrman.cpp:83-511 | every run of the public operations from a new manager ends consistent, and with times in order if successes come at positive times and attempts at none that is negative |
| `AddrManCheck.CheckTried` | src/addrman.cpp:430-442 | the scan of the tried table fails only if some slot is wrong, and leaves nothing exactly if every tried entry has its computed slot |
| `AddrManCheck.CheckNew` | src/addrman.cpp:444-453 | the scan of the new table, counting down: it succeeds with nothing left exactly if every slot is at its computed position and every count of references is the number of slots |
| `AddrManCheck.Check` | src/addrman.cpp:399-460 | for any state of the manager, returns 0 if and only if indexes, counts, tables and times are as they have to be and the key is not null |
| `AddrManCheck.ConsistentPasses` | src/addrman.cpp:399-460 | a consistent manager fails only for its times or its key |
| `AddrManCheck.RunAndCheck` | src/addrman.cpp:399-460 | after every run from a new manager Check_ returns 0 exactly if the times stored are in order and the key is not null, and so if the clock has started |
| `AddrManCheck.FailingRun` | src/addrman.cpp:196-242 | a run after which Check_ does not return 0: an address is added and its success reported at time 0 |
| `AddrManLoading.DeleteSane` | src/addrman.h:462-473 | deleting while pruning keeps vRandom, the tables and what mapAddr has, also where addresses are shared |
| `AddrManLoading.LoadedConsistentIff` | src/addrman.h:398-481 | what is left after pruning is consistent if and only if no entry that stays shares its address with another one read and the tried entries are counted |
| `AddrManStream.HomeTableIs` | src/addrman.h:404-416 | without usable lists a slot is held by the first new entry whose own slot it is |
| `AddrManStream.KeptNewIff` | src/addrman.h:404-460 | a new entry has a slot in the end exactly if the lists give it one or, without usable lists, it is the first for its own |
| `AddrManStream.OriginIs` | src/addrman.h:398-438 | ids number, in order, just the new entries and the tried entries that are the first for their slot |
| `AddrManStream.UnsharedIff` | src/addrman.h:398-481 | addresses are shared among the entries read exactly as the stream says |
| `AddrManStream.DistinctLoadable` | src/addrman.h:398-481 | a stream with distinct addresses and counts that are not negative is one that gives a consistent manager |
| `AddrManReading.ReadNew` | src/addrman.h:398-417 | from any stream: every new entry is read under its number, the slots taken are those the stream says, and vRandom, tables and counts of references are right; or the stream is too short |
| `AddrManReading.ReadTried` | src/addrman.h:419-438 | from any stream: the first entry for each slot is kept and the others are lost and counted, the entries are those of the stream in order, and everything stays right |
| `AddrManReading.ReadBuckets` | src/addrman.h:440-460 | from any stream: the new table is the one that the lists, replayed on the stream, give; only counts of references change besides, and stay right |
| `AddrManReading.Prune` | src/addrman.h:462-473 | just the new entries without a reference go, with what mapAddr has under their addresses; no assert fires, counts stay exact, and with every new entry referenced nothing changes |
| `AddrManReading.ReadNegative` | src/addrman.h:398-481 | with a negative number of new entries nothing is refused but a stream too short, and the number stays negative |
| `AddrManReading.Unserialize` | src/addrman.h:367-481 | which streams are accepted; that any of them whose number of new entries is not negative gives places, tables, references and that number right, and from which entries and slots of the stream; and that the manager is consistent if and only if the stream has no negative count and no entry that is kept with the address of another one read |
| `AddrManReading.SharedLoads` | src/addrman.h:398-438 | a stream that is accepted and gives no consistent manager: one service is both new and tried |
| `AddrManReading.NegativeLoads` | src/addrman.h:388-398 | another: the number of new entries is negative |
| `AddrManSerial.WithinLimits` | src/addrman.h:388-396 | a consistent manager has no more entries than the tables have slots, so the limits never reject it |
| `AddrManSerial.WriteEntries` | src/addrman.h:328-351 | the loop writes the table's entries in the order of their ids, numbers them, and never writes more than the counter says |
| `AddrManSerial.WriteBucket` | src/addrman.h:352-364 | the list of a bucket names the entries of its occupied slots in order |
| `AddrManSerial.Serialize` | src/addrman.h:316-365 | the stream holds every entry and every slot of a consistent manager |
| `AddrManSerial.WrittenBuckets` | src/addrman.h:440-460 | replaying the lists that were written gives back exactly the slots that were written, below the limit of references |
| `AddrManSerial.WrittenRenames` | src/addrman.h:316-481 | what is read from a stream written from a consistent manager is that manager up to the names of ids and what is not saved |
| `AddrManSerial.RenamedConsistent` | src/addrman.h:316-481 | a manager that differs from a consistent one by a renaming of ids is consistent |
| `AddrManSerial.RoundTrip` | src/addrman.h:316-481 | writing and reading back loses nothing: same addresses, slots, counts and references |
| `CuckooCache.BitPackedFlags.constructor` | src/cuckoocache.h:58-64 | all flags start set |
| `CuckooCache.BitPackedFlags.BitSet` | src/cuckoocache.h:88-90 | sets that flag and no other |
| `CuckooCache.BitPackedFlags.BitUnset` | src/cuckoocache.h:99-101 | clears that flag and no other |
| `CuckooCache.BitPackedFlags.BitIsSet` | src/cuckoocache.h:109-111 | reads the flag |
| `CuckooCache.LocsOf` | src/cuckoocache.h:223-232 | the eight places are slots of the table |
| `CuckooCache.Absent` | src/cuckoocache.h:375-380 | an element at none of its eight places is not in the table at all |
| `CuckooCache.ExchangeHomed` | src/cuckoocache.h:409 | exchanging keeps every element at one of its places and there only |
| `CuckooCache.CarriedExchange` | src/cuckoocache.h:409-413 | an exchange conserves the elements, those kept, and the live slots of each epoch, the element in hand included |
| `CuckooCache.CarriedStored` | src/cuckoocache.h:383-389 | storing into a slot marked as garbage drops just that slot's element, keeps everything alive, and stays within the epoch bound |
| `CuckooCache.TotalBounded` | src/cuckoocache.h:252-294 | the bounds on the two epochs bound all live slots by twice the limit |
| `CuckooCache.Cache.constructor` | src/cuckoocache.h:315-329 | after setup nothing is alive and a whole epoch, of 45 percent of the size computed in 32 bits, may pass before the first scan |
| `CuckooCache.Cache.EpochCheck` | src/cuckoocache.h:262-294 | leaves room for one insertion more than the counter says, by counting down, by waiting, or by turning the epoch over |
| `CuckooCache.Cache.Contains` | src/cuckoocache.h:446-457 | true exactly if the element is at one of its eight places, which is membership for every element but the default one; erasing marks just its slot |
| `CuckooCache.Cache.NextLoc` | src/cuckoocache.h:405-408 | the place after the first that is the last one, around the eight; the second if none is |
| `CuckooCache.FirstExchange` | src/cuckoocache.h:394-408 | the first exchange of an insertion is with the second place, and with the first if and only if the two are the same |
| `CuckooCache.MovesOnIff` | src/cuckoocache.h:396-408 | the next exchange is not with the slot just written if and only if that slot is no place of the evicted element or the place after the first such is another |
| `CuckooCache.Cache.ExchangedBack` | src/cuckoocache.h:400-413 | two turns for an evicted element that has the slot just written at one place and the next: they undo each other |
| `CuckooCache.Cache.InsertAbsent` | src/cuckoocache.h:381-417 | the loop ends with the table conserved but for one element, which was marked as garbage unless the depth limit ran out |
| `CuckooCache.Cache.Insert` | src/cuckoocache.h:368-418 | keeps every element at its places, the epoch bounds and the multiset of elements, e gained and one dropped; an element that was there is kept |
| `CuckooCache.StoredStays` | src/cuckoocache.h:364-366 | unless the depth limit ran out, e and everything that was alive are in the table |
| `CuckooCache.Run` | src/cuckoocache.h:252-294 | over every run of insertions and erasures at most twice the epoch limit is alive |
| `RollingBloom.WipedBit` | src/bloom.cpp:265-270 | the mask of the two bit planes clears exactly the positions of the reused generation number |
| `RollingBloom.PutBit` | src/bloom.cpp:280-283 | writing a generation number changes that bit only |
| `RollingBloom.ShowsAfterWipe` | src/bloom.cpp:256-271 | after the wipe each position shows the number of the generation that wrote it last if that is among the last two before, and otherwise nothing |
| `RollingBloom.ShowsAfterWrite` | src/bloom.cpp:274-284 | after an insertion each position shows the number of the generation that wrote it last |
| `RollingBloom.SetIffFresh` | src/bloom.cpp:292-304 | a position is set exactly if some insertion of the last three generations wrote it |
| `RollingBloom.RecentGeneration` | src/bloom.cpp:220-222 | the last 2n+1 insertions are all of the last three generations |
| `RollingBloom.RollingBloomFilter.Reset` | src/bloom.cpp:311-318 | a reset forgets everything |
| `RollingBloom.RollingBloomFilter.Insert` | src/bloom.cpp:255-285 | the filter shows the history with the key added |
| `RollingBloom.RollingBloomFilter.Contains` | src/bloom.cpp:292-304 | true exactly if every position of the key was written in the last three generations, and so always for the last 2n+1 keys inserted |
| `BlockTree.InvertLowestOneClears` | src/chain.cpp:82-84 | a number is an odd multiple of a power of two and loses just that power |
| `BlockTree.SkipsBack` | src/chain.cpp:87-97 | the skip height is always lower |
| `BlockTree.BlockIndex.GetAncestor` | src/chain.cpp:99-123 | for any height, in range or not, the walk over skip pointers ends at the block that as many parent steps lead to; its assert holds and it ends |
| `BlockTree.BlockIndex.BuildSkip` | src/chain.cpp:129-133 | gives a new block its skip pointer, and the tree with it is as GetAncestor needs it |
| `BlockTree.LastCommonAncestor` | src/chain.cpp:173-189 | the highest common ancestor, or none exactly if there is no common block; the assert holds |
| `BlockTree.MeetIffSameRoot` | src/chain.cpp:186-188 | there is a common ancestor if and only if the branches start at the same block |
| `ActiveChain.PathPrefix` | src/chain.cpp:11-25 | the path to a block begins with the path to each block on it |
| `ActiveChain.FilledEnd` | src/chain.cpp:20-24 | where the write stops because a block is in place, everything below is in place too |
| `ActiveChain.Chain.SetTip` | src/chain.cpp:11-25 | from any chain to any tip, the vector becomes exactly the path from the genesis block to the tip |
| `ActiveChain.Chain.Genesis` | src/chain.h:766-768 | the block at height 0 of the tip's branch, if there is a tip |
| `ActiveChain.Chain.Contains` | src/chain.h:793-795 | true exactly for the tip and its ancestors |
| `ActiveChain.Chain.Next` | src/chain.h:801-807 | the child on the chain; none exactly for the tip and blocks off the chain |
| `ActiveChain.Chain.FindFork` | src/chain.cpp:58-69 | the highest active block that is the argument or an ancestor of it |
| `ActiveChain.Chain.GetLocator` | src/chain.cpp:27-56 | lists the ancestors at the locator heights, whether by the vector or by the tree |
| `ActiveChain.LocatorSteps` | src/chain.cpp:33-53 | locator heights end at 0, with eleven single steps first and doubling ones after |
| `ArithUint256.Assign` | src/arith_uint256.h:78-84 | the value assigned |
| `ArithUint256.Complement` | src/arith_uint256.h:61-66 | 2^256 - 1 minus the value |
| `ArithUint256.Negate` | src/arith_uint256.h:68-74 | minus the value, modulo 2^256 |
| `ArithUint256.Increment` | src/arith_uint256.h:152-158 | one more, modulo 2^256 |
| `ArithUint256.Decrement` | src/arith_uint256.h:167-173 | one less, modulo 2^256 |
| `ArithUint256.AddAssign` | src/arith_uint256.h:119-127 | the sum modulo 2^256, also when an object is added to itself |
| `ArithUint256.SubAssign` | src/arith_uint256.h:129-132 | the difference modulo 2^256 |
| `ArithUint256.MulAssign32` | src/arith_uint256.cpp:50-59 | the product modulo 2^256; the 64-bit carry does not overflow |
| `ArithUint256.AddRow` | src/arith_uint256.cpp:66-71 | one row of the product, exact but for what goes beyond 2^256 |
| `ArithUint256.MulAssign` | src/arith_uint256.cpp:61-74 | the product modulo 2^256 for two objects; zero for an object times itself in place, which is the square exactly for multiples of 2^128 |
| `ArithUint256.MulBySelf` | src/arith_uint256.cpp:61-74 | when zero is the right square: exactly for multiples of 2^128 |
| `ArithUint256.ShiftLeftAssign` | src/arith_uint256.cpp:20-33 | times a power of two modulo 2^256, for every shift |
| `ArithUint256.ShiftRightAssign` | src/arith_uint256.cpp:35-48 | the quotient by a power of two, for every shift |
| `ArithUint256.CompareTo` | src/arith_uint256.cpp:106-113 | the order of the values |
| `ArithUint256.EqualTo` | src/arith_uint256.cpp:115-122 | equality with a 64-bit value |
| `ArithUint256.Bits` | src/arith_uint256.cpp:151-161 | n such that 2^(n-1) <= value < 2^n, or 0 for 0 |
| `ArithUint256.DivideBits` | src/arith_uint256.cpp:92-101 | the loop of subtractions and shifts ends with the quotient |
| `ArithUint256.DivAssign` | src/arith_uint256.cpp:76-104 | the floor quotient for every nonzero divisor, and an error exactly for zero |
| `CompactTarget.OverflowGuard` | src/arith_uint256.cpp:193-196 | the guard holds exactly if mantissa * 256^(size-3) does not fit in 256 bits |
| `CompactTarget.SetCompact` | src/arith_uint256.cpp:181-198 | the value of the code modulo 2^256, and when the flags are set, exactly |
| `CompactTarget.GetCompact` | src/arith_uint256.cpp:200-221 | the code of the leading bytes of the value, for the only byte count it has, with the sign bit exactly when asked for and the mantissa is not zero; both asserts hold |
| `CompactTarget.CodeStandsFor` | src/arith_uint256.cpp:200-221 | a code stands for at most the number it was made of, and for less by under one unit of the mantissa |
| `CompactTarget.CodeStable` | src/arith_uint256.cpp:181-221 | coding what a code stands for gives the code again |
| `CompactTarget.ThereAndBack` | src/arith_uint256.cpp:181-221 | the two together, for every 256-bit value: not negative, no overflow, below by less than a unit, same code again |
| `CompactTarget.TargetNotLargest` | src/chain.cpp:143-147 | a target plus one never wraps |
| `CompactTarget.GetBlockProof` | src/chain.cpp:135-148 | floor(2^256 / (target + 1)) for every positive target that fits, and zero for every other code |
| `Base58.DigitsOfNumber` | src/base58.cpp:65-74 | digits without leading zeros are the digits of their number |
| `Base58.EncodeFits` | src/base58.cpp:86-89 | 138/100 of the length, and one, is room for the base-58 digits of any bytes |
| `Base58.DecodeFits` | src/base58.cpp:34-37 | 733/1000 of the length, and one, is room for the bytes of any base-58 digits |
| `Base58.MultiplyAdd` | src/base58.cpp:91-105 | the buffer is multiplied and added to; the assert that no carry is left holds whenever the result has room (and so src/base58.cpp:45-55) |
| `Base58.SkipZeros` | src/base58.cpp:107-111 | what is left is the digits of the buffer's number |
| `Base58.AlphabetIs` | src/base58.cpp:19-20 | the alphabet is the one-to-one correspondence of characters and digits that the model uses |
| `Base58.EncodeBase58` | src/base58.cpp:78-119 | a '1' for each leading zero byte, then the number in base 58 |
| `Base58.DecodeNumber` | src/base58.cpp:39-57 | reads characters up to a space or the end into a number, and refuses just characters outside the alphabet |
| `Base58.DecodeBase58` | src/base58.cpp:22-76 | succeeds exactly on a word of the alphabet with white space around it, and gives a zero byte for each leading '1' and the number in base 256 |
| `Base58.DecodeEncode` | src/base58.cpp:22-119 | decoding the encoding of any bytes gives the bytes |
| `Base58.EncodeDecode` | src/base58.cpp:22-119 | encoding what a text decodes to gives the text without white space around it |
| `Base58.EncodeBase58Check` | src/base58.cpp:129-135 | the encoding of the data followed by its check |
| `Base58.DecodeBase58Check` | src/base58.cpp:137-150 | succeeds exactly on text that decodes to data followed by its check, and gives the data |
| `Base58.CheckedRoundTrip` | src/base58.cpp:129-150 | a checked encoding decodes to its data |
| `CompactBlocks.CompactOf` | src/blockencodings.cpp:20-31 | the message of a block describes it |
| `CompactBlocks.PartiallyDownloadedBlock.PlacePrefilled` | src/blockencodings.cpp:97-119 | which messages pass the tests, in 32-bit arithmetic; that a slot outside is written for exactly one kind of message; and that each transaction is put at its index, over an earlier one just where an index wraps |
| `CompactBlocks.AcceptedIff` | src/blockencodings.cpp:97-116 | a message passes without an index that wraps if and only if it is well-formed and does not write outside |
| `CompactBlocks.WrappedAccepted` | src/blockencodings.cpp:104-118 | a message that passes and is not well-formed, and the slots it leaves |
| `CompactBlocks.GapsAre` | src/blockencodings.cpp:129-135 | the positions that are not prefilled, in increasing order |
| `CompactBlocks.PartiallyDownloadedBlock.MapShortIds` | src/blockencodings.cpp:127-151 | short ids are mapped in order onto the first positions that are not prefilled, kept in 32 bits, never out of range; there are as many such positions as short ids and indexes that wrap; it fails exactly for a crowded bucket |
| `CompactBlocks.PositionsKeptIff` | src/blockencodings.cpp:125-135 | positions are kept whole if and only if the last of them fits in 32 bits |
| `CompactBlocks.CollideIff` | src/blockencodings.cpp:153-159 | the map is smaller than the list exactly if two short ids are the same |
| `CompactBlocks.PartiallyDownloadedBlock.SearchMempool` | src/blockencodings.cpp:161-193 | whatever the order and the early exit, mempool_count is exact, only positions of short ids change, and what is found is the block's |
| `CompactBlocks.PartiallyDownloadedBlock.SearchExtra` | src/blockencodings.cpp:195-228 | the same for the extra transactions |
| `CompactBlocks.PartiallyDownloadedBlock.InitData` | src/blockencodings.cpp:81-236 | what becomes of every message: refused, failed exactly for a crowded bucket or colliding ids, or accepted with the prefilled transactions in place and the count exact; if it describes a block of at most 2^32 transactions and short ids tell the pools' transactions from the block's, what is available is the block's, and all of the block that is in the pools is available |
| `CompactBlocks.AskFor` | src/net/net_processing.cpp:2897-2902 | the transactions at the positions that are not available, in order |
| `CompactBlocks.PartiallyDownloadedBlock.FillBlock` | src/blockencodings.cpp:244-284 | with the right number of missing transactions fills the gaps in order; refuses more, leaving nothing, and fewer, stopping at the first gap without one with the slots before it moved from |
| `CompactBlocks.CompletedIsBlock` | src/blockencodings.cpp:249-262 | slots that hold the block's own and the missing transactions in order make up the block |
| `CompactBlocks.Transfer` | src/blockencodings.cpp:20-270 | from the sender's block of at most 2^32 transactions to the receiver's: whatever the pools hold and in whatever order, a successful reconstruction is the sender's block, and a block that can be sent is reconstructed |

## Left out

- Best-block hashes, `SetBackend`, cursors, `GetPriority` and `AccessByTxid` of the coins views: nothing above depends on them.
- The state of a coins cache after `AddCoin` has thrown: it has already taken the old entry's memory off the counter.
- Database batches that are written in parts, disk errors and the return value of `BatchWrite`: the database is a map.
- Shutdown (`mQuit`), thread interruption and the destructor of the check queue: the counters are deliberately off while they run.
- CheckQueuePool.FindWorst: only the search is a loop of its own; the rest of the pool is stated as steps.
- `Select_` and `GetChance` of the address manager: floating point and random choice.
- AddrManCheck.Check: does not model that looking up an address that is not there adds it to `mapAddr`, which happens only when the manager is not consistent; and the entries are visited in any order, so that which of several codes is returned is open.
- `Clear` on an address manager that is in use: it does not empty `mapInfo` and `mapAddr`.
- `nLastGood` and the memory-only fields are not part of the saved manager, as in the source.
- Concurrent calls of `contains` on the cuckoo cache: operations are taken one at a time.
- CuckooCache.Cache.constructor: takes the depth limit, which the source gets from a floating-point logarithm, and asks that it is at most 31; shifting 1 by 32, which only the largest sizes could lead to, is undefined.
- RollingBloom.RollingBloomFilter.constructor: takes the number of hash functions and words, which the source gets from the rate of false positives by logarithms, and asks for at least one element.
- False-positive rates of the Bloom filter, and how many steps a walk over skip pointers takes.
- `FindEarliestAtLeast`, block status flags, chain work and the serialization of block indexes.
- Conversions of 256-bit integers to and from `double`, hexadecimal and `uint256`, and the bitwise operators on whole integers.
- `CBase58Data` and the address formats built on it.
- `extra_count` and the sizes reported by `InitData`, `CheckBlock`, and the size of a hash-table bucket: the last two are arbitrary functions.
- Null references among the extra transactions: each entry has a transaction.
- CompactBlocks.PartiallyDownloadedBlock.InitData: asks that there are at most 2^32 - 1 prefilled transactions, which is the length of the longest vector that is read (src/serialize.h:311).
- CompactBlocks.Transfer: says nothing of blocks with more than 2^32 transactions, whose positions are cut to 32 bits.
