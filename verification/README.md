# Kunpeng Chain core structures, verified in Dafny

This project models the stateful structures and codecs at the centre of the Kunpeng Chain node and
proves what each of them is for. Every module stands for one component of the node:

| module | component | main results |
|---|---|---|
| CoinsSpec, CoinsView | the stack of UTXO caches over the coin database | a stack behaves like one plain map in every run; the FRESH shortcut never loses a deletion; both exceptions are unreachable; an interrupted database write can be written again |
| AddrManSpec, AddrManOps, AddrManRuns, AddrManOutcome, AddrManDisk, AddrMan | the peer address manager and its file format | every run keeps the conditions of `Check_`; filled tried slots never empty; what one call changes; exactly which remembered collisions are forgotten; the file round trip |
| CheckQueue | the parallel check queue as a protocol over its critical sections | each `Wait` answers for exactly the checks added since the last; no deadlock; bounded progress |
| MinerSpec, MinerTotals, Miner | the block assembler with contract execution | the block is ancestor-closed, ordered, final and free of unwanted witness data; a pool with room is taken whole; exact weight, sigop and reward totals over all executions; limits; termination |
| MerkleSpec, MerkleBlock, MerkleRoot | Merkle roots and partial Merkle trees (BIP 37) | root and mutation flag determine the transaction list; soundness for arbitrary input, completeness with its exact condition, exact number of flag bits, exact condition of the documented size |
| CuckooCache | the cuckoo cache of signature checks | exactly which elements a displacement walk moves and which one it loses; placement, at most one loss per insert, the counter bound |
| RollingBloom | the rolling Bloom filter | exactly which positions an insert marks and wipes; a key survives the next 2 * ((nElements + 1) / 2) inserts |
| ArithSpec, ArithUint256 | 256-bit limb arithmetic, compact targets, block proof | every operator against natural numbers; exact overflow flag; exact block proof |
| SkipList, Chain | the block tree, skip pointers, active chain and locator | the skip walk is the parent walk and takes O(log^2 height) steps; forks; exact spacing and length of the locator |
| BitStream, Gcs | bit streams and Golomb-coded filters (BIP 158) | built filters decode to the sorted hash list; matching is exact, also for filters read from arbitrary bytes |
| Radix, Base58 | Base58 text | buffers suffice; both round trips; exactly which strings are accepted |
| Bech32, Bech32Field, Bech32Distance | Bech32 text (BIP 173) | both round trips; the checksum is a polynomial remainder over GF(32); up to three wrong symbols within 1023 are always detected; the checksum is unique; six-symbol windows are detected at any length |
| Common, Arithmetic, Bits | shared types and facts about powers, quotients and bits | |

## How the source is modelled

Classes whose methods update fields in place are Dafny classes with the same fields. Their methods
are proved against a function of the old state, and the properties are proved about that function and
over whole runs. Integers are unbounded except where the width can be seen in a result: the limbs of the
256-bit numbers, the words of both filters, the sums of decoded filter values, the size of the cuckoo
cache's flags and the sizing of the rolling filter are written out with their wrap-around. An exception or
an error return of the source is a result value. What remains as a precondition is what callers of the
source owe: a consistent object, indexes that were handed out before, random draws within their range, and
a cuckoo cache that is set up once.

Taken from outside as parameters or arbitrary choices:

- hash functions (the bucket hashes, SHA-256 of two nodes, SipHash, MurmurHash and the cuckoo hashes) are
  arbitrary functions. Where a theorem needs collision resistance it assumes it only of the pairs that
  were really hashed;
- clocks, random draws and thread schedules are parameters, nondeterministic choices or events;
- the outcome of executing a contract is arbitrary: any new state roots, any result or none;
- sizes that the source computes in floating point (the number of hash functions and filter bits of the
  rolling filter, the depth limit of the cuckoo cache) are parameters.

## Where code and comments disagree

The model follows the code in each case.

- Cuckoo cache: the comment in `insert` says that the first displacement uses location 0. The index
  expression gives location 1 (`CuckooCache.FirstDisplacement`).
- Coin cache: `SpendCoin` is documented to have no effect and fail on a coin that is not there. It returns
  true for an entry that is cached as already spent (`CoinsView.CoinsCache.SpendCoin` states both).
- Address manager: `Add_` returns true for an unseen address even if the entry is deleted again within
  the call. `AddrManOutcome.AddUnseenOutcome` gives the exact condition under which the address is kept.
- Address manager: `Clear` does not clear the remembered collisions. After `Clear`, or after reading a
  file into a used manager, `SelectTriedCollision_` can therefore insert an entry under id -1.
  `AddrManOutcome.ClearAfterCollisionCorrupts` is a whole run from a fresh manager that ends there.
  `AddrManRuns.SelectCollisionKeepsCheck` is the exact condition on the call,
  `AddrManRuns.ClearedCollisions` the exact condition on `Clear`, and `AddrManRuns.FreshRunsStayHealthy`
  and `AddrManDisk.RestartedRunsStayHealthy` show that it cannot happen before the first `Clear`, nor after
  a restart from a file.
- Partial Merkle tree: `ExtractMatches` clears the list of transactions but only appends to the list of
  positions.
- Partial Merkle tree: the header promises at most 2 * N - 1 flag bits for N hashes. Three transactions with
  the last one selected take 4 bits for 2 hashes (`MerkleBlock.ThreeTransactions`). The bound holds if and
  only if the encoding descends into no node with a single child, and each such node costs exactly one bit
  more (`MerkleBlock.FlagBits`).
- Partial Merkle tree: the header's size guarantee of 10 + ceil(32.25 * N) bytes for fewer than 2^16
  transactions fails for 1025 transactions that are all selected (`MerkleBlock.GuaranteeFails`).
  `MerkleBlock.SizeGuarantee` is the exact condition.
- Block assembler: `resetBlock` keeps the gas, refunds and withheld amounts of earlier executions. The
  reward of a later block then differs from what was earned by exactly what is carried over
  (`Miner.BlockAssembler.CreateNewBlock`).
- Block index: a comment on the skip pointers reports at most 110 steps in simulations with 2^18 blocks.
  The bound proved for all heights, `SkipList.StepsBound`, gives 128 there.
- Block filter: a filter of more than MAX_SIZE (0x10000000) elements can be built but never read back or
  matched. `Gcs.ReadsBack` and `Gcs.GCSFilter.MatchInternal` state this as an equivalence.
- Block filter: a filter read from bytes may hold codes whose sum wraps. The merge then misses a smaller
  value behind a larger one (`Gcs.WrappedIsMissed`); `Gcs.GCSFilter.MatchInternal` states exactly which
  values it finds. With 64 remainder bits the encoder shifts a 64-bit word by its whole width, which C++
  leaves undefined; the model takes the mathematical quotient.
- Cuckoo cache: the flag array rounds the size up to whole bytes in 32 bits. `CuckooCache.Cache.Setup` gives
  a usable cache if and only if the size is at most 0xFFFFFFF8.
- Rolling filter: with no elements requested, or with nearly 2^32 filter bits, the source allocates no words
  at all. The constructor's contract is the exact condition.

## Model

| member | source | states |
|---|---|---|
| `CoinsView.Run` | src/coins.cpp:41-219 | for any stack and any sequence of lookups, inserts, spends, uncachings and flushes on the top cache, every answer is the one a single plain map gives after the same inserts and removals, and the final view is that map |
| `CoinsView.Apply` | src/coins.cpp:41-219 | one operation on the top of a stack acts on its view as on one plain map and answers as the map does |
| `CoinsView.CoinsCache.FlushAll` | src/coins.cpp:205-210 | flushing level after level leaves the database equal to what the top cache showed, with its best block, and changes no view |
| `CoinsView.CoinsCache.Flush` | src/coins.cpp:205-210 | never throws; the parent then shows what this cache showed, this cache is empty, and the parent stays consistent towards the grandparent |
| `CoinsView.CoinsCache.FetchCoin` | src/coins.cpp:41-56 | pulling a coin up changes no view at any level; the entry is there afterwards if and only if it was cached or the parent shows it |
| `CoinsView.CoinsCache.GetCoin` | src/coins.cpp:58-65 | the coin of the view if the view has one, otherwise none |
| `CoinsView.CoinsCache.HaveCoin` | src/coins.cpp:127-130 | true if and only if the view has the coin |
| `CoinsView.CoinsCache.AccessCoin` | src/coins.cpp:118-125 | the coin of the view, or a spent coin exactly when the view has none |
| `CoinsView.CoinsCache.AddCoin` | src/coins.cpp:67-86 | exact throwing condition; otherwise the view gains the coin; the flags stay truthful if and only if the output is unspendable, an overwrite was allowed or the whole stack had no such coin; what a throw leaves behind |
| `CoinsView.CoinsCache.SpendCoin` | src/coins.cpp:100-114 | the view loses exactly this coin and hands it out; the return value is true if and only if an entry was cached or the parent had one, even a spent one |
| `CoinsView.CoinsCache.Uncache` | src/coins.cpp:212-219 | only unmodified entries are dropped, and no view changes |
| `CoinsView.CoinsCache.BatchWrite` | src/coins.cpp:147-203 | exact throwing condition over all entries in any order; a consistent child never throws, and then the parent shows what the child showed over it and stays consistent towards the grandparent |
| `CoinsView.CoinsCache.WriteEntries` | src/coins.cpp:147-203 | the result of the write loop is independent of the order of the entries; the usage counter stays the sum |
| `CoinsView.CoinsCache.WriteEntry` | src/coins.cpp:147-203 | one entry of a child is merged by the four flag cases, or refused exactly when a fresh entry meets an unspent one |
| `CoinsView.AddCoins` | src/coins.cpp:88-98 | with check, for a coinbase, or for absent outputs, no exception is reachable; every spendable output is then in the view with its own script and value, the height and the coinbase and coinstake marks of the transaction, and no other coin changes |
| `CoinsView.CoinsDb.BatchWrite` | src/txdb.cpp:97-155 | the database becomes the old map with the dirty entries written or erased; at every moment in between it holds some of the entries, no best block and both heads, and writing all of them again from there still gives the same map |
| `CoinsSpec.Rewritten` | src/txdb.cpp:97-155 | writing a batch over any part of itself is writing it once |
| `CoinsView.Resumed` | src/txdb.cpp:97-155 | the same from any moment of an interrupted write |
| `CoinsSpec.FetchedKeeps` | src/coins.cpp:41-56 | a clean copy of a parent coin keeps the overlay and the flag invariant |
| `CoinsSpec.AddedMeaning` | src/coins.cpp:67-86 | inserting shows as an insert on the plain map, and keeps FRESH truthful if and only if an overwrite was declared or the coin was absent from the whole stack |
| `CoinsSpec.SpentMeaning` | src/coins.cpp:100-114 | erasing a fresh entry and clearing any other both show as a removal and keep the flags truthful |
| `CoinsSpec.UncachedKeeps` | src/coins.cpp:212-219 | dropping an unflagged entry cannot be seen |
| `CoinsSpec.MergeMeaning` | src/coins.cpp:147-203 | merging all of a consistent child into a consistent parent shows what the child showed, and the merged flags are truthful towards the grandparent |
| `CoinsSpec.MergeTurn` | src/coins.cpp:147-203 | the entries of a child may be merged in any order: one more entry neither changes what the others throw nor their result |
| `CoinsSpec.ConsistentChildNeverThrows` | src/coins.cpp:147-203 | truthful flags make the misapplied-FRESH exception unreachable |
| `CoinsSpec.MisappliedFreshLosesADeletion` | src/coins.cpp:67-86 | a concrete insert without overwrite over a parent coin: after the spend the parent coin is visible again |
| `CoinsSpec.WriteDirtyMeaning` | src/txdb.cpp:97-155 | for truthful flags, writing only the dirty entries equals the whole overlay |
| `CoinsSpec.SumUsagePut` | src/coins.h:163-165 | the usage sum follows every replacement of an entry by the difference of the two usages |
| `AddrManRuns.FreshRunsStayHealthy` | src/addrman.cpp:93-619 | in every run from a fresh manager, after every call, all conditions of the consistency check hold, every remembered collision has its tried slot filled, ids keep their service, a filled tried slot is never found empty again, and with positive clock readings the time conditions hold too |
| `AddrManRuns.RunsStayHealthy` | src/addrman.cpp:93-619 | the same from any consistent manager whose remembered collisions have their tried slots filled |
| `AddrManRuns.RunsEvolve` | src/addrman.cpp:93-619 | between any two points of such a run ids keep their service, new ids are unused ones, and a filled tried slot is never found empty |
| `AddrManRuns.RunsKeepTimes` | src/addrman.cpp:93-619 | with positive clock readings such a run keeps the time conditions |
| `AddrManRuns.HealthyStep` | src/addrman.cpp:93-619 | one call keeps the consistency check and the filled slots of all remembered collisions |
| `AddrManDisk.RestartedRunsStayHealthy` | src/addrman.h:301-478 | all of that also holds in every run of a manager read back from the file of any consistent one |
| `AddrManRuns.CheckedRunsStayChecked` | src/addrman.cpp:93-592 | from any consistent manager, calls other than the collision selection keep it consistent |
| `AddrManRuns.StepMoves` | src/addrman.cpp:190-619 | every single call keeps the invariant, the filled tried slots and the collision condition |
| `AddrManRuns.StepTimes` | src/addrman.cpp:190-619 | no call gives a tried entry a zero success time, given positive clock readings |
| `AddrManRuns.AddKept` | src/addrman.cpp:256-327 | adding keeps nRefCount equal to the number of new slots and between 1 and 8, both tables hashed correctly, vRandom and nRandomPos inverse, and the counters exact |
| `AddrManRuns.GoodMoves` | src/addrman.cpp:190-254 | so does a success report, with or without test before eviction |
| `AddrManRuns.UntriedIsInSomeBucket` | src/addrman.cpp:219-234 | the search for a bucket always succeeds, so the exit for a missing bucket is dead |
| `AddrManRuns.ResolveMoves` | src/addrman.cpp:535-592 | so does resolving all remembered collisions |
| `AddrManRuns.ShuffledMoves` | src/addrman.cpp:476-495 | so does the partial shuffle behind the address sample |
| `AddrManRuns.SelectCollisionKeepsCheck` | src/addrman.cpp:594-619 | selecting a collision keeps the manager consistent if and only if its entry is gone or its tried slot is filled |
| `AddrManRuns.SelectCollisionMoves` | src/addrman.cpp:594-619 | under the collision condition, selecting changes no entry |
| `AddrManRuns.StaleCollisionCorrupts` | src/addrman.h:456-478 | one remembered id, a cleared manager, one added address, and the selection inserts an entry under id -1 |
| `AddrManRuns.ClearedCollisions` | src/addrman.h:456-478 | a cleared manager is consistent, and its remembered collisions have their slots filled if and only if there are none |
| `AddrManOutcome.CollisionIsReached` | src/addrman.cpp:190-327 | for any two addresses that share a tried slot but no new slot, two additions and two successes from a fresh manager remember a collision |
| `AddrManOutcome.ClearAfterCollisionCorrupts` | src/addrman.h:456-478 | that run, then a clear with any key, one more address and the selection: an entry under id -1 |
| `AddrManRuns.RandomListsEverything` | src/addrman.cpp:404-405 | vRandom lists the tried and the new entries, once each |
| `AddrManOutcome.GoodOutcome` | src/addrman.cpp:190-254 | exactly when an entry moves to the tried table; which one slot changes; the displaced holder goes back to its own new slot; failures restart at zero; every other entry keeps its history; when a collision is remembered; that nothing else changes otherwise |
| `AddrManOutcome.MadeTriedOutcome` | src/addrman.cpp:142-188 | one tried slot changes, and its old holder returns to the one new slot its source hashes to |
| `AddrManOutcome.EvictedReturns` | src/addrman.cpp:160-182 | an evicted entry is never lost: it holds the new slot that its own source hashes to |
| `AddrManOutcome.ResolvedOneOutcome` | src/addrman.cpp:535-592 | a collision is forgotten if and only if its entry is gone or invalid, the holder succeeded within four hours, or the newcomer displaces it; the tables change if and only if the newcomer displaces the holder by the time rules, for any four clock readings; a collision that stays remembered changed nothing |
| `AddrManOutcome.ResolvedOneForgets` | src/addrman.cpp:535-592 | forgotten exactly when it need not wait, and then no other is; waiting means no success of the holder for four hours, with a try in the last minute or with the newcomer still in its test window |
| `AddrManOutcome.ResolveOutcome` | src/addrman.cpp:535-592 | after the whole loop a collision is remembered if and only if it had to wait at its turn, behind all smaller ids |
| `AddrManOutcome.ResolveWithoutDisplacing` | src/addrman.cpp:535-592 | when no newcomer displaces a holder the loop changes nothing but to forget exactly those that need not wait |
| `AddrManOutcome.TerribleWhen` | src/addrman.cpp:33-51 | an entry is terrible if and only if it was not tried in the last minute and is from the future, a month old, never reached in three tries, or in ten tries not reached for a week |
| `AddrManOutcome.GoodIsNotTerrible` | src/addrman.cpp:33-254 | a reported success keeps an entry from being terrible for a minute |
| `AddrManOutcome.KnownIsStored` | src/addrman.cpp:67-79 | the lookup finds an entry exactly when one is stored for this address and port, and finds that one |
| `AddrManOutcome.AttemptOutcome` | src/addrman.cpp:329-349 | only the entry of this service changes: its last try, and its failures by one exactly when counted and the last counted one is before the last success of any |
| `AddrManOutcome.FailuresCountOnce` | src/addrman.cpp:329-349 | any number of attempts after the last success counts at most one failure |
| `AddrManOutcome.ConnectedOutcome` | src/addrman.cpp:497-515 | the entry was then seen at most twenty minutes before; a fresher time and all other entries stay |
| `AddrManOutcome.SetServicesOutcome` | src/addrman.cpp:517-533 | the services of exactly this service change |
| `AddrManOutcome.AddUnseenOutcome` | src/addrman.cpp:256-327 | an unseen address is there afterwards if and only if its new slot is empty, held by a terrible entry or by one with another reference; then with its own fields, the time lowered by the penalty unless it announced itself, and that slot; otherwise the call only used up an id; all others keep their history |
| `AddrManOutcome.AddKnownOutcome` | src/addrman.cpp:256-327 | a known entry keeps its identity and table, merges services, takes a fresher time exactly by the interval rules, and gains a further slot exactly under the stated conditions; all others keep their history |
| `AddrManOutcome.AddToEmptySlot` | src/addrman.cpp:256-327 | an unseen address whose new slot is empty gets one entry and one slot, and nothing else changes |
| `AddrManOutcome.PromotionKeepsAll` | src/addrman.cpp:190-254 | a success whose tried slot is empty moves exactly that entry and keeps every other |
| `AddrManOps.ClearedNewKeeps` | src/addrman.cpp:127-140 | clearing a new slot keeps the invariant, deletes an entry exactly with its last reference, and touches no other |
| `AddrManOps.DroppedIsIdle` | src/addrman.cpp:144-154 | after the removal loop the entry is in no new slot, so the assertion on nRefCount holds |
| `AddrManOps.EvictedKeeps` | src/addrman.cpp:160-182 | moving a tried entry back keeps the invariant, the idle entry in hand and every history |
| `AddrManOps.MadeTriedKeeps` | src/addrman.cpp:142-188 | moving an entry to the tried table keeps the invariant, the exact counts and the filled slots |
| `AddrManOps.PlacedKeeps` | src/addrman.cpp:305-326 | the second half of adding keeps the invariant and every history |
| `AddrManSpec.DeletedKeeps` | src/addrman.cpp:113-125 | swapping to the end and popping keeps all indexes inverse and removes one id |
| `AddrManSpec.SwappedKeeps` | src/addrman.cpp:93-111 | a swap keeps vRandom and nRandomPos inverse |
| `AddrManSpec.CreatedKeeps` | src/addrman.cpp:81-91 | a new id enters all indexes and no table |
| `AddrManDisk.RoundTrip` | src/addrman.h:301-454 | reading back the file of any consistent manager gives the same manager up to a renaming of ids: both tables, reference counts, address index; nothing lost, nothing pruned, it is consistent, and the collisions of the reader stay |
| `AddrManDisk.RenamingChecks` | src/addrman.h:351-454 | a renamed consistent manager is consistent |
| `AddrManDisk.CountsFit` | src/addrman.h:371-377 | a consistent manager never exceeds the table sizes that reading insists on |
| `AddrManDisk.NothingPruned` | src/addrman.h:438-448 | the final pruning removes nothing if every entry is tried or referenced |
| `AddrManDisk.FileShape` | src/addrman.h:301-348 | the header: version 1, a key of 32 bytes, both counts and the flagged bucket count 0x40000400 |
| `AddrManDisk.FallbackTable` | src/addrman.h:379-397 | when the stored buckets are of no use, every new slot holds the first entry that its own source hashes to it, and an entry has one reference or none accordingly |
| `AddrMan.CAddrMan.Add` | src/addrman.cpp:256-327 | no assertion fires, the manager stays consistent, and the new state and return value are those of the specification; a further reference is drawn with one chance in two to the number of references |
| `AddrMan.CAddrMan.Good` | src/addrman.cpp:190-254 | no assertion fires, the manager stays consistent, for every start of the bucket search |
| `AddrMan.CAddrMan.FindBucket` | src/addrman.cpp:219-234 | finds a bucket if and only if one holds the entry; always for an untried entry of a consistent manager |
| `AddrMan.CAddrMan.MakeTried` | src/addrman.cpp:142-188 | both assertions hold and the new state is that of the specification |
| `AddrMan.CAddrMan.MakeRoom` | src/addrman.cpp:160-182 | the eviction in place refines its specification |
| `AddrMan.CAddrMan.RemoveFromNew` | src/addrman.cpp:144-154 | the loop over all buckets drops exactly the references of one entry |
| `AddrMan.CAddrMan.PlaceInNew` | src/addrman.cpp:305-326 | the placement in place refines its specification |
| `AddrMan.CAddrMan.ClearNew` | src/addrman.cpp:127-140 | the assertion on nRefCount holds and the new state is that of the specification |
| `AddrMan.CAddrMan.Delete` | src/addrman.cpp:113-125 | the entry leaves the three indexes |
| `AddrMan.CAddrMan.SwapRandom` | src/addrman.cpp:93-111 | two positions are exchanged in vRandom and in both entries |
| `AddrMan.CAddrMan.Create` | src/addrman.cpp:81-91 | a new entry under the next id |
| `AddrMan.CAddrMan.Attempt` | src/addrman.cpp:329-349 | counts a failure only once between successes, and keeps the manager consistent |
| `AddrMan.CAddrMan.Connected` | src/addrman.cpp:497-515 | updates the time only after twenty minutes, and keeps the manager consistent |
| `AddrMan.CAddrMan.SetServices` | src/addrman.cpp:517-533 | only for exactly this service, and keeps the manager consistent |
| `AddrMan.CAddrMan.ResolveCollisions` | src/addrman.cpp:535-592 | visits the remembered collisions in order, each with its own clock readings, and refines the specification; a collision stays remembered if and only if it must wait at its turn; consistent throughout |
| `AddrMan.CAddrMan.ResolveOne` | src/addrman.cpp:535-592 | one turn of that loop, with up to four readings of the clock; forgets this collision exactly when it need not wait, and no other |
| `AddrMan.CAddrMan.GetAddr` | src/addrman.cpp:476-495 | exactly the entries that the draws select, in that order, less the terrible ones, ending at the smaller of 23 per cent and 2500 or after all; distinct and stored; consistent afterwards |
| `AddrMan.CAddrMan.DrawNext` | src/addrman.cpp:487-491 | one draw moves an entry to the next position, and the earlier positions stay |
| `AddrMan.CAddrMan.SelectTriedCollision` | src/addrman.cpp:594-619 | stays consistent if and only if the entry is gone or its slot filled, and then the chosen entry is a tried one |
| `AddrMan.CAddrMan.Clear` | src/addrman.h:456-478 | empty and consistent, but with the old collisions |
| `AddrMan.CAddrMan.Serialize` | src/addrman.h:301-348 | writes exactly the specified file, which can be read |
| `AddrMan.CAddrMan.WriteEntries` | src/addrman.h:316-333 | the entries of one kind in order of id, each with its rank |
| `AddrMan.CAddrMan.WriteRows` | src/addrman.h:334-347 | the buckets as ranks of their entries |
| `AddrMan.CAddrMan.Unserialize` | src/addrman.h:351-454 | fails exactly on unreadable files, otherwise refines the loading specification |
| `AddrMan.CAddrMan.ReadNew` | src/addrman.h:379-397 | the new entries, each at its primary slot when the format has changed |
| `AddrMan.CAddrMan.TakePrimary` | src/addrman.h:386-395 | the one reference given when the stored positions cannot be used |
| `AddrMan.CAddrMan.ReadTried` | src/addrman.h:399-418 | the tried entries, losing those whose slot is taken |
| `AddrMan.CAddrMan.ReadRows` | src/addrman.h:420-436 | the stored new positions, where the format allows |
| `AddrMan.CAddrMan.PruneUnreferenced` | src/addrman.h:438-448 | drops exactly the entries that neither table holds |
| `CheckQueue.EveryWaitAnswers` | src/checkqueue.h:66-124 | under every interleaving with any number of workers and spurious wake-ups, each Wait returns true if and only if every check added since the last one passes, and then each of them ran exactly once |
| `CheckQueue.StepKeeps` | src/checkqueue.h:66-158 | every step keeps nTodo equal to queued plus in-batch checks, nIdle and nTotal exact, all checks conserved and the verdict equal to what ran, and never lets the master sleep un-notified with nothing to do |
| `CheckQueue.RunKeeps` | src/checkqueue.h:66-158 | so does every run, and no thread keeps the lock |
| `CheckQueue.SomeoneCanMove` | src/checkqueue.h:66-124 | no deadlock: while the master waits, some thread can go on without a spurious wake-up |
| `CheckQueue.MovesAreBounded` | src/checkqueue.h:66-124 | without new checks, the number of steps is bounded up to spurious wake-ups |
| `CheckQueue.WaitReturns` | src/checkqueue.h:66-124 | when only spurious wake-ups are left, the master has returned |
| `CheckQueue.MoveShrinks` | src/checkqueue.h:66-124 | every real step decreases the remaining work |
| `CheckQueue.LoopedReturns` | src/checkqueue.h:88-97 | when Wait returns nothing is in flight, its verdict is right and no failure leaks into the next round |
| `CheckQueue.LoopedTakes` | src/checkqueue.h:107-116 | taking a batch conserves the checks and the counters |
| `CheckQueue.LoopedSleeps` | src/checkqueue.h:98-100 | going to sleep keeps every wake-up guarantee |
| `CheckQueue.CleanedUpKeeps` | src/checkqueue.h:77-86 | accounting for a finished batch notifies the master when it was the last |
| `CheckQueue.WokenKeeps` | src/checkqueue.h:99-100 | waking, also spuriously, keeps the counters |
| `CheckQueue.ExecutedKeeps` | src/checkqueue.h:119-122 | running or skipping a check conserves it and keeps the verdict |
| `CheckQueue.AddedKeeps` | src/checkqueue.h:146-158 | adding at any time, also during a Wait, notifies enough workers and counts every check |
| `CheckQueue.BatchSizeBounds` | src/checkqueue.h:107-107 | a batch is never empty, never more than is queued, and within the configured maximum |
| `CheckQueue.FairShare` | src/checkqueue.h:103-107 | within those limits a batch is the largest that, taken by all workers with the idle ones counted twice, does not exceed the queue |
| `CheckQueue.BatchTakes` | src/checkqueue.h:109-114 | a batch and what stays are together the queue |
| `Miner.BlockAssembler.CreateNewBlock` | src/miner.cpp:118-273 | the block is ancestor-closed, duplicate-free and ordered; all chosen transactions are final, and without witness data unless witness is enabled; a pool that fits is taken whole, as far as it can be mined; its weight and sigops are exactly those of what it holds; the header gets the roots of the last execution and the state is put back; the reward pays subsidy plus fees less what is carried over from earlier blocks and less the sum over this block's executions of withheld minus refunded; so it pays what was earned if and only if those add up to zero |
| `Miner.BlockAssembler.AddPackageTxs` | src/miner.cpp:646-805 | for every finite acyclic pool and any contract outcomes the loop terminates, its assertion never fires, the block stays ancestor-closed and ordered and holds only transactions that can be mined, and weight and sigops exceed the limits by at most what the contracts of the last package brought; with room for the whole pool, no contracts and no other limit it holds exactly the transactions that can be mined with all their ancestors |
| `Miner.BlockAssembler.TryPackage` | src/miner.cpp:710-803 | a package that enters in full or in part keeps order, exact totals, limits, minability and modified totals, and its head leaves the candidates or enters the block |
| `Miner.BlockAssembler.AddPackage` | src/miner.cpp:763-798 | what enters is a subset of the package, all of it unless a contract fails or time runs out, always ancestor-closed and minable; exact totals are kept; the whole package leaves the modified set |
| `Miner.BlockAssembler.Consider` | src/miner.cpp:717-803 | a package is refused only for its size or because its head cannot be mined, then leaves the modified set and changes nothing; otherwise it is tried |
| `Miner.BlockAssembler.AlwaysFits` | src/miner.cpp:403-411 | with room for the whole pool no package is too big |
| `MinerTotals.PackageMinable` | src/miner.cpp:417-426 | a package may be mined if and only if its head and all ancestors of the head are final and free of unwanted witness data |
| `MinerTotals.MinableInBlock` | src/miner.cpp:417-426 | an ordered block of such transactions holds only those whose ancestors are such, too |
| `MinerTotals.AccountedExact` | src/miner.cpp:583-608 | after a package went in, the totals of everything else are exactly those of its ancestors outside the block |
| `MinerTotals.RestFits` | src/miner.cpp:403-411 | block and package together never exceed the pool |
| `MinerTotals.AllTracked` | src/miner.cpp:646-805 | when every candidate was decided and none is left, the block holds all that was wanted |
| `Miner.BlockAssembler.AttemptToAddContractToBlock` | src/miner.cpp:428-561 | added if and only if time is left, contracts are enabled, the calls can be read and are allowed, and the result stays within gas, weight and sigop limits; a refused contract leaves the assembler unchanged, state roots included; an added one brings exactly its transfers, gas and refunds and rebuilds the reward; the final sigop total is within the limit but for refunds carried over |
| `Miner.BlockAssembler.Evaluate` | src/miner.cpp:428-528 | a result if and only if every test of an execution passes; nothing but the state roots changes, and those only for a result that passes |
| `Miner.BlockAssembler.BeginBlock` | src/miner.cpp:118-213 | the block with only its proof transactions, the original reward noted, all totals exact |
| `Miner.BlockAssembler.Admit` | src/miner.cpp:530-560 | applies an execution that fits; exact weight, sigops, gas, refunds and reward |
| `Miner.BlockAssembler.CallsAllowed` | src/miner.cpp:453-469 | true if and only if every call respects the running gas total, the block gas limit and the minimum price |
| `Miner.BlockAssembler.AllowedCalls` | src/miner.cpp:453-469 | allowed calls pay the minimum price, fit each into the block, and together ask for no more than one transaction may |
| `Miner.BlockAssembler.RebuildRefundTransaction` | src/miner.cpp:97-113 | the reward slot holds the rebuilt outputs and nothing else changes |
| `Miner.RewardTotal` | src/miner.cpp:97-113 | the rebuilt reward pays earned - withheld + refunds, which is exactly what was earned if and only if the refunds add up to what was withheld |
| `Miner.RewardSigOps` | src/miner.cpp:97-113 | the rebuilt reward has the sigops of the original outputs and of all refunds |
| `Miner.BalancedIsEven` | src/miner.cpp:530-546 | executions that each refund what they withhold leave the total unchanged |
| `Miner.BlockAssembler.PlainLimits` | src/miner.cpp:403-411 | in a block without contracts weight and sigops are exactly the reserved ones plus those of the pool entries, and below the limits unless nothing was added |
| `Miner.BlockAssembler.AddToBlock` | src/miner.cpp:564-581 | one more transaction after its ancestors; weight, sigops, fees and count follow |
| `Miner.BlockAssembler.AddTransfers` | src/miner.cpp:547-552 | the transfers come right after the contract that made them |
| `Miner.BlockAssembler.SortForBlock` | src/miner.cpp:625-634 | the entries of the package, each once, by ancestor count, then hash |
| `Miner.BlockAssembler.UpdatePackagesForAdded` | src/miner.cpp:583-608 | each descendant outside the block loses exactly its newly included ancestors, whatever the order |
| `Miner.BlockAssembler.UpdateDescendants` | src/miner.cpp:588-605 | one included ancestor accounted to all its descendants |
| `Miner.BlockAssembler.ResetBlock` | src/miner.cpp:83-95 | the counters restart; the refunds and withheld amounts of earlier executions stay |
| `MinerSpec.PackageOrder` | src/miner.cpp:625-634 | in the sorted package every entry comes after all its ancestors outside the block, and the package head comes last |
| `MinerSpec.BlockClosed` | src/miner.cpp:646-805 | an ordered block contains the ancestors of everything in it |
| `MinerSpec.OrderedAdd` | src/miner.cpp:564-581 | appending an entry whose ancestors are in keeps order and uniqueness |
| `MinerSpec.AncestorsInside` | src/miner.h:167-178 | an ancestor has strictly fewer ancestors, so sorting by count respects dependence |
| `MinerSpec.EntryAccounted` | src/miner.h:196-208 | subtracting included ancestors leaves totals that still cover the rest of the package |
| `MinerSpec.AccountedCovers` | src/miner.cpp:583-608 | the same for the whole modified set |
| `MinerSpec.ModifiedAfterSuccess` | src/miner.cpp:800-803 | after a package went in, the modified set is disjoint from the block and covers |
| `MinerSpec.ModifiedAfterFailure` | src/miner.cpp:767-798 | and also after only part of one went in |
| `MinerSpec.PackageFits` | src/miner.cpp:403-411 | whatever part of a package enters, weight and sigops grow by at most the recorded totals |
| `MerkleBlock.ExtractSound` | src/merkleblock.cpp:132-163 | for arbitrary bits and hashes, an extraction that returns the root of a list of the same length reports only true (transaction, position) pairs in ascending order, unless a hashed pair collides with one of the true tree |
| `MerkleBlock.ExtractComplete` | src/merkleblock.cpp:116-163 | building, packing and extracting returns the selected transactions and positions in order, and the true root if and only if no two sibling nodes on the way have equal hashes |
| `MerkleBlock.DistinctExtract` | src/merkleblock.cpp:116-163 | with distinct transactions and no collision in the true tree the root is returned |
| `MerkleBlock.Relay` | src/merkleblock.cpp:116-163 | the whole path through bytes and back returns the root, the selected transactions and their positions |
| `MerkleBlock.EncodedSize` | src/merkleblock.h:36-40 | at most one hash per transaction and at most 1 + selected * height hashes |
| `MerkleBlock.FlagBits` | src/merkleblock.h:42-48 | exactly 2 N - 1 flag bits for N hashes plus one for each descended node with a single child, of which there is at most one per level; so the documented bound holds if and only if there is none |
| `MerkleBlock.ThreeTransactions` | src/merkleblock.h:42-48 | three transactions, the last selected: four bits for two hashes |
| `MerkleBlock.SizeGuarantee` | src/merkleblock.h:31-48 | the documented 10 + ceil(32.25 N) bytes hold if and only if the flag bytes have a one-byte length or the lone children fit into the rounding |
| `MerkleBlock.GuaranteeFails` | src/merkleblock.h:31-48 | 1025 transactions, all selected, take one byte more |
| `MerkleBlock.PowerPlusOne` | src/merkleblock.h:31-48 | 2^k + 1 transactions, all selected, have k lone children |
| `MerkleBlock.EncodedPlausible` | src/merkleblock.cpp:132-147 | no encoding under the size cap is refused by the plausibility tests |
| `MerkleBlock.CPartialMerkleTree.FromTxids` | src/merkleblock.cpp:116-128 | the constructor builds the specified encoding |
| `MerkleBlock.CPartialMerkleTree.TraverseAndBuild` | src/merkleblock.cpp:60-76 | appends the encoding of the subtree |
| `MerkleBlock.CPartialMerkleTree.TraverseAndExtract` | src/merkleblock.cpp:78-114 | walks exactly the specified subtree, appends its matches and accumulates fBad |
| `MerkleBlock.CPartialMerkleTree.ExtractMatches` | src/merkleblock.cpp:132-163 | the root or the null hash under exactly the stated tests; clears the matches, appends the positions |
| `MerkleBlock.CPartialMerkleTree.CalcHeight` | src/merkleblock.cpp:121-124 | the first height of width one |
| `MerkleBlock.CPartialMerkleTree.Serialize` | src/merkleblock.h:88-105 | the bits come back from the bytes, followed by zeroes to a whole byte |
| `MerkleBlock.CPartialMerkleTree.Unserialize` | src/merkleblock.h:88-98 | all fields from the wire, fBad cleared |
| `MerkleBlock.PackBits` | src/merkleblock.h:100-103 | unpacking the packed bytes gives the padded bits |
| `MerkleBlock.UnpackBits` | src/merkleblock.h:93-97 | bit by bit, least significant first |
| `MerkleSpec.WalkSound` | src/merkleblock.cpp:78-114 | a walk of a subtree that hashes to the true node reports only genuine transactions |
| `MerkleSpec.WalkComplete` | src/merkleblock.cpp:60-114 | the walk of an encoding returns the node hash, the selected entries and the consumed lengths; it is bad exactly on twin children |
| `MerkleSpec.WalkIndexes` | src/merkleblock.cpp:78-114 | reported positions are ascending and below the node, for arbitrary input |
| `MerkleSpec.BuildSize` | src/merkleblock.h:36-40 | the bound on stored hashes, for every subtree |
| `MerkleSpec.BitCount` | src/merkleblock.cpp:60-76 | the exact number of flag bits, for every subtree |
| `MerkleSpec.OneChildBound` | src/merkleblock.h:66-68 | nodes with a single child lie on the right edge only, at most one per level |
| `MerkleSpec.AllStored` | src/merkleblock.cpp:60-76 | with everything selected every transaction hash is stored |
| `MerkleSpec.NodesDiffer` | src/merkleblock.cpp:103-107 | distinct transactions and no collision make any two nodes of a level differ |
| `MerkleSpec.Children` | src/merkleblock.h:66-68 | the children of a node cover exactly its transactions |
| `MerkleSpec.WidthFits` | src/merkleblock.h:66-68 | up to 2^31 transactions the width computation stays within 32 bits |
| `MerkleRoot.RootDeterminesList` | src/consensus/merkle.cpp:9-63 | without hash collisions, and with no transaction id that is the hash of a pair, two lists of any lengths with the same root of which neither is flagged are the same list |
| `MerkleRoot.SameListIff` | src/consensus/merkle.cpp:9-63 | without that condition on ids: they are the same if and only if they have the same number of levels |
| `MerkleRoot.LeafAsNode` | src/consensus/merkle.cpp:45-63 | a lone transaction whose id is the hash of two others has their root, unflagged |
| `MerkleRoot.RepeatedIsFlagged` | src/consensus/merkle.cpp:9-42 | repeating the last 2^k transactions where the number of such blocks is odd keeps the root and is flagged |
| `MerkleRoot.ComputeMerkleRoot` | src/consensus/merkle.cpp:45-63 | the root of the tree the partial trees are cut from, null for no transactions; flagged if and only if two hashes of a pair are equal on some level |
| `MerkleRoot.NextLevel` | src/consensus/merkle.cpp:54-58 | pairs hashed in place, an odd last one with itself |
| `MerkleRoot.RootIsTrueRoot` | src/consensus/merkle.cpp:45-63 | pairing level by level and the recursion of the partial trees give the same root |
| `MerkleRoot.LevelIs` | src/merkleblock.cpp:44-58 | and the same hash for every node |
| `MerkleRoot.SameRoot` | src/consensus/merkle.cpp:9-63 | of two unflagged lists with one root the lower is a level of the higher |
| `MerkleRoot.UnmutatedHasNoTwins` | src/merkleblock.cpp:103-107 | partial trees of an unflagged list never meet equal children |
| `CuckooCache.Cache.Insert` | src/cuckoocache.h:392-440 | every stored element sits once at one of its locations; an element that is not there takes exactly the specified walk, on the table and flags found after collection: in particular, when it is blocked and the holder of its second location is not, only what a collected location of that holder held is lost; at most one element becomes unfindable and none but the inserted one appears; an element with a free location is stored; re-insertion changes no slot; what is stored is kept in the current epoch; live entries plus counter stay within epoch_size + max(1, epoch_size / 16) |
| `CuckooCache.Cache.Displace` | src/cuckoocache.h:406-439 | the walk moves the holders that the hashes and the last slot determine, stops at the first one with a collected location, which it takes, and drops the one in hand exactly at the depth limit; the same placement and loss bounds |
| `CuckooCache.SecondStep` | src/cuckoocache.h:406-439 | a blocked element whose second location holds an unblocked one: one displacement, and only the content of a collected slot is lost |
| `CuckooCache.AfterSpares` | src/cuckoocache.h:416-438 | displacements never touch a collected slot |
| `CuckooCache.NextLocIs` | src/cuckoocache.h:429-430 | the location after the last one used, round the eight; the second one if the last is none of them |
| `CuckooCache.Cache.EpochCheck` | src/cuckoocache.h:289-321 | makes room for one more current-epoch entry; counts down by one, scans only when the counter is used up, ages exactly when the epoch is full and then waits a whole epoch, otherwise for the largest of one, a sixteenth epoch and what is missing |
| `CuckooCache.Cache.AgeEpoch` | src/cuckoocache.h:304-309 | old-epoch entries become collectable, current ones become old, nothing moves |
| `CuckooCache.Cache.CountLive` | src/cuckoocache.h:297-300 | the number of kept entries of the current epoch |
| `CuckooCache.Cache.Contains` | src/cuckoocache.h:467-477 | true if and only if the element is at one of its locations; erasing only marks that slot |
| `CuckooCache.Cache.Setup` | src/cuckoocache.h:340-353 | at least two slots, all collectable, the given depth limit, 45 per cent of the size as epoch and a whole epoch to go, if and only if the size is at most 0xFFFFFFF8; above, the flag array wraps to nothing |
| `CuckooCache.Cache.Exchange` | src/cuckoocache.h:430-435 | element and epoch flag change places together, so the live count is conserved |
| `CuckooCache.Cache.Store` | src/cuckoocache.h:408-415 | a collectable slot takes the element; at most its old content is lost |
| `CuckooCache.Swapped` | src/cuckoocache.h:430-435 | a swap with a kept element keeps every other one findable |
| `CuckooCache.PutDown` | src/cuckoocache.h:408-415 | filling a collectable slot loses at most what it held |
| `CuckooCache.FirstDisplacement` | src/cuckoocache.h:416-430 | the first displacement goes to location 1 of eight |
| `CuckooCache.BitSet` | src/cuckoocache.h:92-95 | sets this flag and no other |
| `CuckooCache.BitUnset` | src/cuckoocache.h:103-106 | clears this flag and no other |
| `CuckooCache.LocsAre` | src/cuckoocache.h:243-253 | location i is the 32-bit hash i as a fraction of the table |
| `RollingBloom.CRollingBloomFilter.Insert` | src/bloom.cpp:245-274 | every position of the table afterwards: the key's own hold the generation, those of a reused generation are wiped exactly when the current one was full, all others stay; the key is remembered for the next 2 * ((nElements + 1) / 2) inserts, and every other remembered key loses one insert |
| `RollingBloom.CRollingBloomFilter.InsertThenOthers` | src/bloom.h:109-110 | insert a key, then up to two generations of any keys: it is still contained |
| `RollingBloom.CRollingBloomFilter.RememberedIsFound` | src/bloom.cpp:282-294 | a remembered key is contained |
| `RollingBloom.CRollingBloomFilter.Contains` | src/bloom.cpp:282-294 | true if and only if every position of the key is marked |
| `RollingBloom.CRollingBloomFilter.NextGeneration` | src/bloom.cpp:247-263 | starting a generation, wrap-around included, spares the marks of the two before it |
| `RollingBloom.CRollingBloomFilter.Wipe` | src/bloom.cpp:253-261 | the word-parallel wipe clears exactly the positions of the reused generation |
| `RollingBloom.CRollingBloomFilter.MarkAll` | src/bloom.cpp:265-273 | marks every position of the key and changes no other |
| `RollingBloom.CRollingBloomFilter.Reset` | src/bloom.cpp:302-310 | all positions empty, the generation count restarted |
| `RollingBloom.CRollingBloomFilter.constructor` | src/bloom.cpp:205-230 | half the elements, rounded up in 32 bits, per generation; nothing marked; usable if and only if the filter bits are between 1 and 2^32 - 64 |
| `RollingBloom.WipedBit` | src/bloom.cpp:253-261 | the mask clears a bit pair exactly when both bits match the generation |
| `RollingBloom.OverwrittenPair` | src/bloom.cpp:271-272 | marking sets one position to the generation and leaves the other 63 |
| `RollingBloom.TurnSpares` | src/bloom.cpp:247-263 | a key marked within the last two generations keeps all its marks over a turn |
| `RollingBloom.RoomAfterTurn` | src/bloom.cpp:247-263 | the count of inserts a key still survives falls by one with each insert, across turns |
| `RollingBloom.PlaceIs` | src/bloom.cpp:241-269 | the hash as a fraction of the table chooses the pair of words, and its remainder by 64 the bit |
| `ArithUint256.GetBlockProof` | src/chain.cpp:121-134 | exactly floor(2^256 / (target + 1)), or zero for the rejected targets |
| `ArithUint256.ProofOf` | src/chain.cpp:128-133 | the last line of it, for every target that fits |
| `ArithUint256.ProofIdentity` | src/chain.cpp:128-133 | complement divided, plus one, is that quotient |
| `ArithUint256.TargetFits` | src/chain.cpp:121-134 | target plus one never wraps |
| `ArithUint256.BaseUint.MulAssign` | src/arith_uint256.cpp:70-83 | the product modulo 2^256, also for aliased operands |
| `ArithUint256.BaseUint.MulAssign32` | src/arith_uint256.cpp:58-67 | the product with a 32-bit factor modulo 2^256 |
| `ArithUint256.BaseUint.DivAssign` | src/arith_uint256.cpp:86-109 | exact floor division; a zero divisor fails after the target was cleared |
| `ArithUint256.BaseUint.DivRound` | src/arith_uint256.cpp:99-107 | one turn of its loop keeps remainder plus quotient times divisor and halves the bound on the remainder |
| `ArithUint256.BaseUint.ShlAssign` | src/arith_uint256.cpp:24-38 | times a power of two modulo 2^256, for every shift |
| `ArithUint256.BaseUint.ShrAssign` | src/arith_uint256.cpp:41-55 | divided by a power of two, rounded down, for every shift |
| `ArithUint256.BaseUint.CompareTo` | src/arith_uint256.cpp:112-121 | the order of the values |
| `ArithUint256.BaseUint.EqualTo` | src/arith_uint256.cpp:124-135 | equality with a 64-bit number |
| `ArithUint256.BaseUint.Bits` | src/arith_uint256.cpp:194-206 | the position of the highest set bit plus one |
| `ArithUint256.BaseUint.SetCompact` | src/arith_uint256.cpp:229-247 | the decoded value modulo 2^256; overflow flag set if and only if it does not fit; exact sign flag |
| `ArithUint256.CompactOverflow` | src/arith_uint256.cpp:241-245 | the three size tests are equivalent to not fitting in 256 bits |
| `ArithUint256.BaseUint.GetCompact` | src/arith_uint256.cpp:249-270 | decodes to the value with its lowest bits cleared, keeping at least sixteen leading bits; both assertions hold |
| `ArithUint256.BaseUint.AddAssign` | src/arith_uint256.h:134-144 | the sum modulo 2^256 |
| `ArithUint256.BaseUint.SubAssign` | src/arith_uint256.h:146-150 | the difference modulo 2^256 |
| `ArithUint256.BaseUint.Negate` | src/arith_uint256.h:76-84 | the negative modulo 2^256 |
| `ArithUint256.BaseUint.Complement` | src/arith_uint256.h:68-74 | 2^256 - 1 minus the value |
| `ArithUint256.BaseUint.Increment` | src/arith_uint256.h:172-179 | one more, modulo 2^256 |
| `ArithUint256.BaseUint.Set` | src/arith_uint256.h:87-94 | the value of a 64-bit number |
| `ArithUint256.BaseUint.GetLow64` | src/arith_uint256.h:247-251 | the value modulo 2^64 |
| `Chain.CBlockIndex.GetAncestor` | src/chain.cpp:83-108 | in every tree grown with skip pointers, the skip walk ends where walking parents would, and nowhere outside the range; for heights up to 2^l it takes at most (l^2 + 11 l + 8) / 4 steps |
| `Chain.CBlockIndex.BuildSkip` | src/chain.cpp:115-119 | the new skip pointer is the ancestor at the skip height, so the tree stays sound |
| `Chain.AddBlock` | src/chain.cpp:115-119 | growing the tree keeps every skip pointer sound |
| `SkipList.StepsBound` | src/chain.cpp:73-108 | the number of steps of the walk is quadratic in the logarithm of the height, whatever the target |
| `SkipList.SkipsIs` | src/chain.cpp:90-97 | the walk follows the skip pointer exactly under the coded test |
| `SkipList.GetSkipHeight` | src/chain.cpp:73-81 | a height strictly below the one it is for |
| `SkipList.LowestOneCleared` | src/chain.cpp:70-70 | the bit trick clears the lowest one bit and no other |
| `SkipList.Aligned` | src/chain.cpp:73-108 | from a multiple of 2^j, any target within the 2^j blocks below is reached within Depth(j) steps |
| `SkipList.DepthClosed` | src/chain.cpp:73-108 | a closed form that number never exceeds |
| `Chain.AncestorOfAncestor` | src/chain.cpp:83-108 | ancestors of ancestors are ancestors |
| `Chain.LastCommonAncestor` | src/chain.cpp:155-170 | the highest block both descend from, or none if they share none |
| `Chain.CChain.SetTip` | src/chain.cpp:11-21 | exactly the ancestor path of the tip, although it stops at the first entry already in place |
| `Chain.CChain.FindFork` | src/chain.cpp:51-60 | the highest ancestor that is in the chain |
| `Chain.CChain.GetLocator` | src/chain.cpp:23-49 | ancestors from the start down to genesis: one block apart for the first twelve, then gaps of two, four, eight and so on; at most 11 + l of them for height up to 2^l, l > 0 |
| `Chain.LocatorBound` | src/chain.cpp:23-49 | the doubling steps give that bound |
| `Chain.CChain.StepBack` | src/chain.cpp:38-44 | both ways to step back give the same ancestor |
| `Chain.OldPath` | src/chain.cpp:11-21 | below a kept entry the chain already is the ancestor path |
| `Gcs.Build` | src/blockfilter.cpp:126-154 | the filter encodes the ascending hashed values, each as often as elements share it; refused exactly from 2^32 elements on and, unless empty, for more than 64 remainder bits |
| `Gcs.GCSFilter.MatchInternal` | src/blockfilter.cpp:156-186 | for any readable filter, also one read from arbitrary bytes: true if and only if some query equals a decoded value that none before it exceeds; unreadable exactly when the size is refused |
| `Gcs.GCSFilter.Match` | src/blockfilter.cpp:188-192 | the same for one element; for a built filter, true if and only if its hash is in the list |
| `Gcs.GCSFilter.MatchAny` | src/blockfilter.cpp:194-198 | true if and only if some element of the set matches |
| `Gcs.BuildAndMatch` | src/blockfilter.cpp:126-192 | no element of the set a filter was built from is missed, whenever it can be built and read |
| `Gcs.GCSFilter.BuildHashedSet` | src/blockfilter.cpp:88-97 | ascending, with every hash as often as elements have it |
| `Gcs.GCSFilter.HeldBits` | src/blockfilter.cpp:126-154 | the encoding is the size, the codes and fewer than eight zero bits |
| `Gcs.ReadFilter` | src/blockfilter.cpp:103-124 | accepted if and only if the size is readable, that many codes follow and less than a byte is left over; an accepted filter decodes to a list of that size |
| `Gcs.ReadsBack` | src/blockfilter.cpp:103-154 | a built filter reads back, and decodes to exactly the list it was built from, if and only if it has at most MAX_SIZE elements |
| `Gcs.MapIntoRange` | src/blockfilter.cpp:54-78 | floor(x n / 2^64) from four 32-bit products |
| `Gcs.UpperHalf` | src/blockfilter.cpp:54-78 | no partial product or sum overflows 64 bits |
| `Gcs.GolombRiceEncode` | src/blockfilter.cpp:18-33 | appends the unary quotient and the remainder bits of the number; fails exactly for more than 64 remainder bits |
| `Gcs.WriteOnes` | src/blockfilter.cpp:21-28 | its unary part, up to 64 ones at a time |
| `Gcs.GolombRiceDecode` | src/blockfilter.cpp:35-47 | reads what the parser specifies and fails exactly when the stream is too short or the remainder has more than 64 bits |
| `Gcs.ParseGolomb` | src/blockfilter.cpp:18-47 | a code followed by anything decodes to its number and leaves the rest |
| `Gcs.CodesSkipped` | src/blockfilter.cpp:103-124 | reading as many codes as there are values ends at the padding |
| `Gcs.CodesDecoded` | src/blockfilter.cpp:126-154 | the codes of an ascending list decode to exactly that list |
| `Gcs.DecodedIffSkipped` | src/blockfilter.cpp:103-124 | a list can be decoded exactly when its codes can be skipped, and has as many values |
| `Gcs.GCSFilter.HeldIsListed` | src/blockfilter.cpp:103-154 | a built filter decodes to its list if and only if it has at most MAX_SIZE elements |
| `Gcs.AscendingMeet` | src/blockfilter.cpp:156-186 | in an ascending list the search finds every common value |
| `Gcs.WrappedIsMissed` | src/blockfilter.cpp:156-186 | codes 5 and 2^64 - 2 are accepted, decode to 5 and 3, and 3 is not found |
| `Gcs.CompactSizeBack` | src/serialize.h:268-322 | a size reads back, with its length, if and only if it is at most MAX_SIZE |
| `Gcs.CompactSizeCanonical` | src/serialize.h:268-322 | only what the writer writes is read |
| `Gcs.LittleEndianAt` | src/serialize.h:268-291 | byte i of a size has the weight 256^i |
| `BitStream.BitStreamWriter.Write` | src/streams.h:564-579 | appends exactly the low bits of the number; refused exactly outside 0 to 64 |
| `BitStream.BitStreamWriter.Flush` | src/streams.h:584-592 | completes the last byte with zeroes |
| `BitStream.BitStreamReader.Read` | src/streams.h:516-535 | the next bits as a number; fails exactly when too few are left or the count is out of range |
| `BitStream.WriteChunk` | src/streams.h:569-578 | the shifts place the next bits right behind the pending ones |
| `BitStream.ReadChunk` | src/streams.h:528-532 | the shifts select the next bits of the buffer |
| `BitStream.BitAt` | src/streams.h:564-579 | the bits of a number, the most significant first |
| `Base58.EncodeThenDecode` | src/base58.cpp:35-122 | decoding what was encoded gives the bytes back, for all byte strings |
| `Base58.DecodeThenEncode` | src/base58.cpp:35-122 | encoding what was decoded gives the string back, for all alphabet strings |
| `Base58.EncodeBase58` | src/base58.cpp:84-122 | the base-58 digits of the bytes, leading zero bytes kept as leading ones; the carry assertion always holds |
| `Base58.DecodeBase58` | src/base58.cpp:129-132 | what stands before the first zero character is decoded: accepted if and only if it is an alphabet string between white space; then the base-256 digits, leading ones kept as zero bytes |
| `Base58.DecodeChars` | src/base58.cpp:35-82 | the same for a C string; the carry assertion always holds |
| `Base58.EncodeBufferSuffices` | src/base58.cpp:94-94 | 138/100 of the length plus one always suffices |
| `Base58.DecodeBufferSuffices` | src/base58.cpp:48-48 | 733/1000 of the length plus one always suffices |
| `Base58.MulAdd` | src/base58.cpp:57-64 | multiplies and adds in place; the carry is always used up |
| `Base58.Alphabet` | src/base58.cpp:15-15 | the digits have the characters of the alphabet, in order |
| `Base58.CharsAndDigits` | src/base58.cpp:16-33 | both tables are inverse |
| `Base58.Blocked` | src/base58.cpp:52-56 | a character outside alphabet and white space spoils every reading |
| `Base58.Interrupted` | src/base58.cpp:67-71 | so does white space inside |
| `Radix.ConvertBack` | src/base58.cpp:35-122 | converting digits to another base and back gives them back |
| `Bech32.EncodeThenDecode` | src/bech32.cpp:147-190 | prefix and symbols come back, for every non-empty lower-case printable prefix up to 90 characters |
| `Bech32.DecodeThenEncode` | src/bech32.cpp:147-190 | an accepted string comes back in lower case |
| `Bech32.Decode` | src/bech32.cpp:159-190 | accepted exactly under the case, length, separator, character and checksum rules; then prefix and symbols |
| `Bech32.Encode` | src/bech32.cpp:147-156 | prefix, separator, symbols and checksum, in that order |
| `Bech32.EncodedAccepted` | src/bech32.cpp:147-190 | every encoding within the length limit is accepted |
| `Bech32.AcceptedEncodes` | src/bech32.cpp:147-190 | an accepted string is the encoding of what it decodes to |
| `Bech32.ChecksumVerifies` | src/bech32.cpp:118-139 | a list with its checksum verifies |
| `Bech32.ChecksumUnique` | src/bech32.cpp:118-139 | and with no other six symbols |
| `Bech32.WindowDetected` | src/bech32.cpp:37-125 | a valid list of any length changed only within six consecutive symbols is no longer valid |
| `Bech32.ErrorShows` | src/bech32.cpp:37-94 | an error pattern confined to six symbols never runs to zero |
| `Bech32.RunLinear` | src/bech32.cpp:37-94 | the checksum run is linear over exclusive or |
| `Bech32.StepKernel` | src/bech32.cpp:80-91 | one step turns nothing but zero into zero |
| `Bech32.PolyMod` | src/bech32.cpp:37-94 | the loop computes the run from 1, which is the remainder of the list with a leading 1 by the generator (Bech32Field.RunIsRemainder) |
| `Bech32Distance.ThreeErrorsDetected` | src/bech32.cpp:43-49 | a valid list of at most 1023 symbols changed in one, two or three of them, anywhere, is no longer valid |
| `Bech32Distance.ThreeErrorsRejected` | src/bech32.cpp:118-125 | so a checksum does not verify for other data that differ in up to three symbols, when prefix and data stay within 1023 |
| `Bech32Distance.ThreeErrorsShow` | src/bech32.cpp:43-49 | an error pattern of at most three symbols within 1023 never runs to zero |
| `Bech32Distance.GeneratorVanishes` | src/bech32.cpp:44-49 | three consecutive powers of a primitive element of GF(1024) are roots of the generator |
| `Bech32Distance.NoFixedPoint` | src/bech32.cpp:44-49 | that element is primitive: no power of it below the 1023rd keeps anything but zero |
| `Bech32Distance.RunValue` | src/bech32.cpp:58-94 | at such a root the checksum of a list has the value of the list as a polynomial |
| `Bech32Distance.Independent` | src/bech32.cpp:44-49 | three terms of different degrees cannot vanish at three consecutive roots unless all are zero |
| `Bech32Field.RunIsRemainder` | src/bech32.cpp:37-94 | the six coefficients of the run are the remainder of the list with a leading 1, as a polynomial over GF(32), by the generator |
| `Bech32Field.RemainderIsUnique` | src/bech32.cpp:37-58 | there is only one such remainder |
| `Bech32Field.ConstantsAreMultiples` | src/bech32.cpp:86-91 | the five constants are k(x) times 1, 2, 4, 8 and 16 in GF(32) |
| `Bech32Field.VerifiedIsRemainder` | src/bech32.cpp:118-125 | a checksum verifies if and only if prefix, data and checksum leave the remainder 1 |
| `Bech32Field.AcceptsA` | src/test/bech32_tests.cpp:28-29 | the string a12uel5l is accepted |
| `Bech32Field.AlphabetInOrder` | src/bech32.cpp:11-12 | the 32 characters in the order of their values |
| `Bech32Field.NoDivisors` | src/bech32.cpp:39-58 | the product of two non-zero elements is not zero |
| `Bech32Field.Distributes` | src/bech32.cpp:39-58 | multiplication distributes over exclusive or |
| `Bech32Field.FieldExample` | src/bech32.cpp:53-54 | {5} times {26} is {9}, as the comment has it |
| `Bech32.CreateChecksum` | src/bech32.cpp:128-139 | the six groups of what the run differs from 1 by |
| `Bech32.ShiftedToIs` | src/bech32.cpp:134-137 | dropping five bits at a time is the one shift of the source |
| `Bech32.VerifyChecksum` | src/bech32.cpp:118-125 | true if and only if the run ends at 1 |
| `Bech32.SymRev` | src/bech32.cpp:11-25 | every symbol comes back from its character |
| `Bech32.RevSym` | src/bech32.cpp:11-25 | every accepted character is that of its symbol, up to case |

## Left out

- Startup, configuration, RPC, HTTP, wallet, network and storage code: plumbing without an invariant of its own.
- Check_: its structural conditions are the invariant itself; the integer codes it returns are not modelled.
- Select_ and GetChance: random search and floating-point chances; its termination is only probabilistic.
- False-positive rates and floating-point sizing of both filters: not deductive.
- The ordinary Bloom filter, Base58Check, SetHex and the conversions to double: easier members.
- Ancestor fee totals in the assembler: the two places that lower them use different fees. Everything else is proved for every possible order of candidates, so the fee comparison is an arbitrary choice; the end of the search at the minimum fee rate is a flag, and completeness is stated for a search without it.
- Proof-of-stake kernel search, block validity tests and the state database behind contract execution.
- CoinsView.CoinsDb.BatchWrite: replaying the blocks between the two heads after a crash is not modelled, only that the entries themselves may be written again.
- CoinsSpec.SumUsagePut: counts the length of a script where the source counts its allocated capacity.
- CheckQueue.AddedKeeps: nTodo is not bounded by 32 bits, and thread interruption is not modelled.
- AddrMan.CAddrMan.Add: reads the clock once for the call, while the source reads it again for every terrible entry it asks about.
- AddrMan.CAddrMan.GetAddr: reads the clock once for the call; the draws are given, their distribution is not modelled.
- AddrMan.CAddrMan.Unserialize: the byte layout of single entries and the network-address encoding are not modelled, only which fields are stored, in which order.
- CuckooCache.Cache.Setup: called once, as its comment demands; the logarithm behind the depth limit is a parameter between 1 and 255.
- RollingBloom.CRollingBloomFilter.constructor: the numbers of filter bits and hash functions are parameters, because the source computes them in floating point.
- Gcs.Build: elements are values of any type and SipHash is any function of them.
- Bech32Distance.ThreeErrorsDetected: the comment's further claim, four errors within 89 symbols, rests on a computer search and is not proved.
- Base58.DecodeBase58: the overloads that take other types are left out.
- Miner.BlockAssembler.AttemptToAddContractToBlock: a script is only its number of signature operations, and the outcome of executing a contract is arbitrary.
- Miner.BlockAssembler.CreateNewBlock: header fields other than the two state roots, the witness commitment and the final validity test are not modelled.
- MerkleSpec.WidthFits: needs at most 2^31 transactions, which the size cap implies; other results use unbounded integers.
