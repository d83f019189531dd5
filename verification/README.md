# Verified cores of the node

A Dafny model of the self-contained data structures, protocols and codecs of the node,
with proofs that each behaves like the simpler thing it stands for.  `dafny verify
dfyconfig.toml` checks everything.

| file | what it models |
|---|---|
| `Coins.dfy` | the layered cache of unspent coins: a stack of write-back caches that reads like one map |
| `CheckQueue.dfy` | the parallel check queue: every critical section is one atomic step of a transition system |
| `AddrMan.dfy`, `AddrManGroups.dfy` | the address manager: six redundant indexes, kept consistent by every operation; how much of it one address range can fill |
| `MerkleBlock.dfy`, `MerkleMessage.dfy` | partial Merkle trees (BIP 37, section "Partial Merkle branch format"), and what exactly their messages spell |
| `CuckooCache.dfy` | the signature cache: eviction chains and epochs |
| `RollingBloom.dfy` | the rolling Bloom filter: generation stamps in pairs of words |
| `DbTransaction.dfy`, `EvoDb.dfy` | the database transaction and its merging iterator, nested to any depth; the evolution database |
| `ArithUint.dfy` | fixed-width integers: limb arithmetic of any width, long division |
| `CompactTarget.dfy` | compact targets and block work |
| `SkipList.dfy`, `Chain.dfy` | block index skip links and how fast they lead back, the active chain, fork finding |
| `CompactBlocks.dfy` | compact block reconstruction (BIP 152, section "Short transaction IDs") |
| `BitStream.dfy`, `GcsFilter.dfy` | bit streams and Golomb-coded filters (BIP 158, section "Golomb-Coded Sets") |
| `Bech32.dfy`, `Field1024.dfy`, `Bech32Distance.dfy`, `Bech32Vectors.dfy` | the Bech32 checksum and text form (BIP 173, section "Bech32"), how many errors it detects, and a published string |
| `Base58.dfy` | Base58 in both directions |
| `Numbers.dfy`, `Bits.dfy`, `Words.dfy`, `Wrappers.dfy` | arithmetic, bit and option helpers |

Code that changes state in place is a class or a method with loops, proved against pure
specifications; laws that relate several operations are lemmas about those.  Hash
functions are parameters.  Where a law needs a hash to have no collisions, it says among
which inputs: injectivity on all inputs would be impossible for a fixed-size hash.  Random
numbers, clocks and the outcome of checks made elsewhere are parameters or arbitrary.

## What the proofs found

- `CAddrMan::Check_` looks an address up under its full key while the map is filled under
  the key with the port normalised (src/addrman.cpp:88-95, 436-437).  `LiteralKeyCheckIff`
  says exactly when that test passes, and `LiteralKeyCheckFails` gives a run after which it
  does not; the operations keep the normalised form of it.  The lookup also inserts a missing
  key with id 0, so the check damages the map it checks, and can do so even when it passes
  (`LookupDamagesIff`).
- `CAddrMan::Good_` at time 0 can leave a tried entry without a success time, which `Check_`
  refuses; `GoodCheckIff` says exactly when, `GoodAtZeroFails` gives a run.
- In `CAddrMan`, the bail-out for an entry without a bucket (src/addrman.cpp:246-249) and
  the branch for a collision whose slot is empty (src/addrman.cpp:607-610) are never taken.
- A partial Merkle tree that extracts to zero proves nothing by that alone: a rejected
  extraction returns zero as well and leaves what it had matched (`ZeroRootIsUnsound`).  One
  that was accepted is sound, whatever the root (`ExtractionSound`).
- `LastCommonAncestor` gives up after 10,000,000 steps and then returns a block that is not
  a common ancestor; `LastCommonAncestor` and `ForkOfDepth` say exactly when.
- The cuckoo cache tries the second location first, although the comment at
  src/cuckoocache.h:419-421 speaks of the first.  The default element counts as contained
  where a slot was never written.  The epoch bound needs no assumption that 45 * size fits.
- The packed flags of the cuckoo cache have no byte at all for the seven sizes from 0xFFFFFFF9
  on, because the 32-bit sum in src/cuckoocache.h:61-67 wraps (`FlagsCoverIff`).
- A filter received from a peer whose running sums pass 2^64 holds values that no query finds
  (`WrappedIsMissed`); `MatchInternal` says exactly what matching any filter returns.
- Where src/chain.cpp:77-79 reports a simulation, `TurnsBounded` gives a bound for the walk along
  skip links: the square of the logarithm of the distance, over four, and a few turns per bit.
- A filter of more than 0x02000000 elements can be built but neither loaded nor matched,
  because the size limit of `ReadCompactSize` applies to its count (`BuiltLoads`).
- A request whose indexes do not increase is written as huge differences and refused by
  the reader (`SendIndexes`).
- `base_uint` division by zero throws after the dividend was overwritten with zero.

## Model

| member | source | states |
|---|---|---|
| `Coins.MergeCorrect` | src/coins.cpp:150-206 | writing a consistent child cache into its parent leaves the parent consistent with the grandparent (FRESH only over no unspent coin, not DIRTY only when equal to what is behind) and reading exactly as the child did |
| `Coins.NeverMisapplied` | src/coins.cpp:179-181 | a child whose flags are right can never reach the "FRESH flag misapplied" exception |
| `Coins.Rewrite` | src/coins.cpp:42-138 | changing one cache entry keeps the invariant exactly when the new entry is consistent, and changes the view at that outpoint only |
| `Coins.AddCoinKeepsFlagsIff` | src/coins.cpp:68-88 | the entry AddCoin writes keeps the flag invariant exactly when overwriting was allowed, or the outpoint was already cached, or nothing unspent lies behind |
| `Coins.Database.BatchWrite` | src/test/coins_tests.cpp:33-72 | a bottom view takes over a batch: it then reads like the batch over its old contents, whether it keeps or drops spent entries |
| `Coins.CoinsViewCache.FetchCoin` | src/coins.cpp:42-57 | fetching changes no view; a missing result means no unspent coin |
| `Coins.CoinsViewCache.GetCoin` | src/coins.cpp:59-66 | finds a coin exactly when the view has it, and returns that coin |
| `Coins.CoinsViewCache.HaveCoin` | src/coins.cpp:130-133 | true exactly when the view has an unspent coin |
| `Coins.CoinsViewCache.AccessCoin` | src/coins.cpp:121-128 | the view's coin, or the empty coin |
| `Coins.CoinsViewCache.AddCoin` | src/coins.cpp:68-88 | throws exactly on a forbidden overwrite of a cached unspent coin, otherwise the view gains the coin (an unspendable one changes nothing); the flag invariant survives exactly when overwriting was allowed, the outpoint was cached, or nothing unspent is there |
| `Coins.CoinsViewCache.SpendCoin` | src/coins.cpp:103-117 | the view loses the outpoint, and the coin moved out is the one it had |
| `Coins.CoinsViewCache.BatchWrite` | src/coins.cpp:150-206 | throws exactly when some FRESH flag is misapplied, otherwise every outpoint holds the merge of the two entries, and nothing else changes |
| `Coins.CoinsViewCache.BatchWriteFrom` | src/coins.cpp:150-206 | called with a consistent child it never throws, stays valid and then reads like the child |
| `Coins.CoinsViewCache.Flush` | src/coins.cpp:208-213 | never throws; the view is unchanged, the backing view now equals it, and the cache is empty |
| `Coins.CoinsViewCache.Uncache` | src/coins.cpp:215-222 | an entry with neither flag is gone and every other entry untouched; no view changes |
| `Coins.CoinsViewCache.FlushAt` | src/coins.cpp:208-213 | flushing a cache at any depth of the stack leaves the top view unchanged |
| `Coins.CoinsViewCache.UncacheAt` | src/coins.cpp:215-222 | uncaching at any depth leaves the top view unchanged |
| `Coins.Run` | src/coins.cpp:42-222 | any run of adds, spends, reads, uncaches, flushes, pushes and pops over a stack of any depth answers and reads like the same run over one plain map |
| `Coins.Step` | src/coins.cpp:42-222 | one such step, against the plain map |
| `Coins.UnspendableIff` | src/script/script.h:557-560 | which outputs never enter the view, in plain numbers |
| `CheckQueue.NextKeepsInv` | src/checkqueue.h:66-158 | no step of any thread divides by zero, pops too much or underflows, and every step keeps the invariant |
| `CheckQueue.AddKeepsInv` | src/checkqueue.h:146-158 | adding checks and notifying keeps the invariant, including that queued work has an awake worker |
| `CheckQueue.LockIsDefined` | src/checkqueue.h:75-117 | the critical section of Loop is well defined in every sound state: counters do not underflow and the batch size is within the queue |
| `CheckQueue.LockKeepsInv` | src/checkqueue.h:75-117 | the critical section of Loop keeps the invariant, whether it returns, waits or takes a batch |
| `CheckQueue.WorkKeepsInv` | src/checkqueue.h:118-122 | executing a check keeps every check accounted for and a failure visible |
| `CheckQueue.BatchIsShare` | src/checkqueue.h:102-107 | a batch has at least one check and at most nBatchSize, and otherwise as many as an equal share of the queue |
| `CheckQueue.NothingRunsAfterFailure` | src/checkqueue.h:115-121 | a batch taken after a failure was recorded is given up without executing any of its checks |
| `CheckQueue.NothingRunsAfterFailedCheck` | src/checkqueue.h:118-121 | so is the rest of a batch after a check that fails |
| `CheckQueue.RunInv` | src/checkqueue.h:66-158 | every state of every interleaving of one master and any number of workers satisfies the invariant |
| `CheckQueue.TodoIsExact` | src/checkqueue.h:76-116 | in every reachable state nTodo is the number of checks queued or in some thread's batch |
| `CheckQueue.WaitVerdict` | src/checkqueue.h:77-97 | Wait returns true exactly when every check added since it last returned was executed and succeeded, false exactly when one was executed and failed |
| `CheckQueue.QueuedWorkIsNoticed` | src/checkqueue.h:146-158 | while checks are queued some worker is on its way to them, unless there is none |
| `CheckQueue.BlockedMasterHasWorker` | src/checkqueue.h:80-101 | a master blocked with no wake-up pending always leaves a worker holding unfinished checks |
| `CheckQueue.OwnStepsDescend` | src/checkqueue.h:66-124 | every step a thread takes by itself lowers a measure of the work left |
| `CheckQueue.NeverStuck` | src/checkqueue.h:66-124 | while the master waits, some thread can take a step |
| `CheckQueue.WaitReturns` | src/checkqueue.h:66-143 | without new checks or spurious wake-ups the steps come to an end within that measure, and only after Wait has returned |
| `AddrMan.Run` | src/addrman.cpp:86-646 | any operations carried out on a fresh manager are a run of the step relation: each state follows from the one before by the specification of that operation, with its answer, and every state satisfies the whole invariant and the conditions of Check_ |
| `AddrMan.RunSound` | src/addrman.cpp:86-646 | every state of every run of the step relation, with any clock readings and random choices, is sound and passes Check_ |
| `AddrMan.StepSound` | src/addrman.cpp:86-646 | each single operation, seen as a relation between states, keeps the whole invariant |
| `AddrMan.Perform` | src/addrman.cpp:86-646 | every operation of the class is such a step, with its answer |
| `AddrMan.SoundPassesCheck` | src/addrman.cpp:412-486 | the invariant the operations keep implies every condition of Check_, with the address looked up under its normalised key |
| `AddrMan.LiteralKeyCheckIff` | src/addrman.cpp:436-437 | Check_ as written looks addresses up without normalising the port: that test passes exactly when ports are discriminated, or every entry but entry 0 has port 0 |
| `AddrMan.LiteralKeyCheckFails` | src/addrman.cpp:436-437 | two addresses with ports added to a fresh manager that does not discriminate them: a run after which that test fails |
| `AddrMan.LookupDamagesIff` | src/addrman.cpp:436-437 | that lookup inserts a missing key with id 0: it leaves the map as it should be exactly when ports are discriminated or the entry has port 0 |
| `AddrMan.RandomSize` | src/addrman.cpp:416-417 | the random list has as many ids as there are tried and new entries |
| `AddrMan.AddrManager.constructor` | src/addrman.h:477-505 | a fresh manager satisfies the invariant and is empty |
| `AddrMan.AddrManager.SwapRandom` | src/addrman.cpp:103-121 | swaps two ids of the random list together with their recorded positions |
| `AddrMan.SwappedInv` | src/addrman.cpp:103-121 | swapping keeps the invariant |
| `AddrMan.AddrManager.Delete` | src/addrman.cpp:123-140 | removes an unreferenced entry from all indexes |
| `AddrMan.RemovedInv` | src/addrman.cpp:123-140 | removing keeps the invariant, with one entry less |
| `AddrMan.AddrManager.ClearNew` | src/addrman.cpp:142-155 | empties one new-table slot and deletes the entry when that was its last reference |
| `AddrMan.ClearedNewInv` | src/addrman.cpp:142-155 | clearing keeps the invariant |
| `AddrMan.AddrManager.Create` | src/addrman.cpp:86-101 | adds an entry to all indexes under its normalised address |
| `AddrMan.CreatedInv` | src/addrman.cpp:86-101 | creating keeps the invariant, with one entry not yet referenced |
| `AddrMan.AddrManager.Evict` | src/addrman.cpp:175-196 | the holder of a tried slot leaves it and enters its own new-table slot, deleting an entry whose last reference was there |
| `AddrMan.EvictedInv` | src/addrman.cpp:175-196 | evicting keeps the invariant: the evicted entry is a new one with one reference |
| `AddrMan.MadeTriedSteps` | src/addrman.cpp:157-203 | becoming tried is leaving all new buckets, emptying the tried slot and taking it, each step defined |
| `AddrMan.AddrManager.MakeTried` | src/addrman.cpp:157-203 | moves an entry to its tried slot, sending an entry that was there back to the new table |
| `AddrMan.MadeTriedInv` | src/addrman.cpp:157-203 | that keeps the invariant: one slot per tried entry, exact reference counts and counters |
| `AddrMan.MadeTriedEffect` | src/addrman.cpp:157-203 | afterwards the entry is tried in its own slot and every known address is still known |
| `AddrMan.AddrManager.Find` | src/addrman.cpp:68-84 | finds the id of the normalised address, or nothing |
| `AddrMan.AddrManager.FindNewBucket` | src/addrman.cpp:234-249 | finds some bucket holding the entry; a sound entry always has one, so the bail-out is never taken |
| `AddrMan.AddrManager.Promote` | src/addrman.cpp:234-266 | an entry not yet tried is recorded as a pending collision, while there is room, when its slot is taken and eviction is to be tested, and becomes tried otherwise |
| `AddrMan.PromotedInv` | src/addrman.cpp:234-266 | either way the invariant holds afterwards, and the entry is tried exactly when eviction needs no test or the slot was free |
| `AddrMan.AddrManager.Good` | src/addrman.cpp:205-267 | computes GoodSpec for any time, and says what that comes to (GoodOutcome): statistics, pending collision, or the move with every slot and entry it touches; the invariant survives exactly for a positive time, a zero time that only records a collision, or an unknown address |
| `AddrMan.GoodDoes` | src/addrman.cpp:205-267 | GoodOutcome: a known address gets the time and no failures; if not tried it is recorded as a collision when its slot is taken and that is to be tested, and moved otherwise |
| `AddrMan.MadeTriedOutcome` | src/addrman.cpp:157-203 | the move: the entry leaves all its new slots and takes its tried slot; its former holder gets one slot, in the bucket its own source leads to; the entry there loses that slot, and goes with its last one; nothing else changes |
| `AddrMan.GoodInv` | src/addrman.cpp:205-267 | whatever the time, the indexes stay consistent; a known address gets the time as its last try and success, and is tried afterwards exactly when it was, or eviction needs no test, or its slot is free |
| `AddrMan.GoodSoundIff` | src/addrman.cpp:205-267 | marking an address good keeps the whole invariant, pending collisions included, exactly for those times |
| `AddrMan.GoodCheckIff` | src/addrman.cpp:412-486 | and Check_ passes afterwards exactly for those times |
| `AddrMan.GoodAtZeroFails` | src/addrman.cpp:412-486 | an address added to a fresh manager and called good at time 0: Check_ fails |
| `AddrMan.AddrManager.Add` | src/addrman.cpp:269-340 | computes AddSpec from the two clock readings of the source, and says what that comes to slot by slot and entry by entry (AddOutcome): which slot may change, who holds it afterwards, who is forgotten, and the time and services of a known entry |
| `AddrMan.AddDoes` | src/addrman.cpp:269-340 | AddOutcome: an unknown address takes its slot from nobody, a terrible entry or one with other slots, and is forgotten otherwise; a known one gains a slot only if fresher, not tried, below eight slots and lucky, and only from nobody or a terrible entry; every other slot and entry stays |
| `AddrMan.HealthyStays` | src/addrman.cpp:318-338 | an entry that is not terrible stays known whatever is announced |
| `AddrMan.NewcomerYields` | src/addrman.cpp:324-337 | an unknown address whose slot is held by an entry that is not terrible and has no other slot is not taken up |
| `AddrMan.TerribleIff` | src/addrman.cpp:33-51 | which entries are terrible, in plain numbers |
| `AddrMan.AttemptSpares` | src/addrman.cpp:34-37 | an address tried within the last minute survives any announcement |
| `AddrMan.AddSound` | src/addrman.cpp:269-340 | adding an address keeps the whole invariant |
| `AddrMan.PlacedInv` | src/addrman.cpp:318-338 | placing an entry in a new-table slot, over an entry or not, keeps the invariant and leaves the entry referenced or removed |
| `AddrMan.AddrManager.Attempt` | src/addrman.cpp:342-362 | rewrites the statistics of a known address and nothing else; the invariant survives exactly when the time is not negative or the address unknown |
| `AddrMan.AttemptsCountOnce` | src/addrman.cpp:342-362 | failures are counted once until some address succeeds again, and only when they are to be counted |
| `AddrMan.RestatSoundIff` | src/addrman.cpp:342-362 | rewriting statistics of an entry leaves a sound manager sound exactly when the new try time is not negative |
| `AddrMan.AddrManager.Connected` | src/addrman.cpp:510-528 | renews the time of a known address by the twenty-minute rule and nothing else |
| `AddrMan.ConnectedIsFresh` | src/addrman.cpp:510-528 | afterwards the time of the address is at most twenty minutes old, and it is moved only for that |
| `AddrMan.AddrManager.SetServices` | src/addrman.cpp:530-546 | replaces the services of a known address and nothing else |
| `AddrMan.ServicesAreSet` | src/addrman.cpp:530-546 | the services of a known address are those given, and nothing else changes |
| `AddrMan.AddrManager.GetAddr` | src/addrman.cpp:489-508 | returns the service, flags and time of distinct entries that are not terrible: exactly the share of 23 percent, at most 2500, or else every entry that is not terrible; only the random list is reordered |
| `AddrMan.AddrManager.ResolveCollisions` | src/addrman.cpp:569-619 | one pass over the pending collisions, each visited once, each with the outcome that the holder of its slot and the clock decide (VisitOutcome); an occupied slot is found for every one still known, so no entry is ever created under id -1 |
| `AddrMan.AddrManager.VisitCollision` | src/addrman.cpp:571-618 | what one pending collision comes to |
| `AddrMan.VisitDoes` | src/addrman.cpp:571-618 | VisitOutcome: the entry takes over the slot exactly when its holder has had no success for four hours and a try within four hours but not the last minute; it stays pending exactly when there was neither; else it is dropped |
| `AddrMan.PassKeepsHolder` | src/addrman.cpp:569-619 | through a whole pass a tried slot keeps its holder, with its statistics, unless some clock reading makes that holder lose it |
| `AddrMan.VisitSound` | src/addrman.cpp:571-618 | resolving one collision keeps the whole invariant |
| `AddrMan.PassSound` | src/addrman.cpp:569-619 | so does every state of a pass |
| `AddrMan.AddrManager.SelectTriedCollision` | src/addrman.cpp:621-646 | returns the tried entry that some pending collision would evict, or nothing; drops the collision drawn exactly when its entry is gone; keeps the invariant |
| `AddrManGroups.GroupShareOfTried` | src/addrman.h:111-131 | in every sound state the tried entries of one address range are at most 512, of 16384 slots |
| `AddrManGroups.GroupStaysInside` | src/addrman.h:111-131 | whatever sources in one range announce, and however often, at least 960 of the 1024 new buckets and the whole tried table stay as they are |
| `AddrManGroups.TriedBucketsOfGroup` | src/addrman.cpp:12-17 | addresses of one range reach at most eight tried buckets |
| `AddrManGroups.NewBucketsOfGroup` | src/addrman.cpp:19-25 | announcements from one range reach at most 64 new buckets |
| `AddrManGroups.BucketsAre` | src/addrman.cpp:12-31 | which of them it is, and the place in it, by the residues of the hashes |
| `MerkleBlock.WidthStep` | src/merkleblock.h:66-68 | the width of a level is the width of the level below, halved and rounded up |
| `MerkleBlock.ExtractSound` | src/merkleblock.cpp:90-126 | for any bits and hashes, a subtree that extracts without error to the true hash yields only true leaves at their true positions, and all hashes it used are hashes of nodes; also when the extraction goes by another number of leaves |
| `MerkleBlock.ExtractionSound` | src/merkleblock.cpp:144-175 | for any bits and hashes and any claimed number of transactions with a tree as high, if extraction yields the root of a list, and the root is not zero or the extraction was accepted, then every (txid, position) it returns is in that list and every hash of the message is the hash of a node of its tree, given no collision among the pairs hashed |
| `MerkleBlock.ZeroRootIsUnsound` | src/merkleblock.cpp:144-175 | with a zero root it has to be accepted: a rejected extraction returns zero too, and keeps what it had matched |
| `MerkleBlock.HashesDistinct` | src/merkleblock.cpp:52-70 | nodes of one level over distinct txids have distinct hashes |
| `MerkleBlock.BuildSizes` | src/merkleblock.cpp:69-88 | a build writes at least one bit, and at least as many bits as hashes |
| `MerkleBlock.BuildPrunes` | src/merkleblock.cpp:69-88 | a node with no match below it is one bit and its hash |
| `MerkleBlock.ExtractBuilt` | src/merkleblock.cpp:69-126 | extracting a built subtree, wherever its bits and hashes stand in the lists, gives its hash and exactly the masked leaves in order, and uses up exactly its bits and hashes |
| `MerkleBlock.BuiltExtracts` | src/merkleblock.cpp:128-175 | a built tree, its bits padded to bytes, extracts to the root and exactly the masked txids and positions in order |
| `MerkleBlock.Pack` | src/merkleblock.h:99-104 | packing puts bit p at its place in the bytes and pads with zeros |
| `MerkleBlock.Unpack` | src/merkleblock.h:92-98 | unpacking reads every bit of the bytes |
| `Bits.MaskIs` | src/merkleblock.h:96-103 | flag bit p is bit p % 8 of its byte, counted from the lowest |
| `MerkleBlock.PartialMerkleTree.FromMatches` | src/merkleblock.cpp:128-140 | the constructor computes the pure build |
| `MerkleBlock.PartialMerkleTree.FromWire` | src/merkleblock.h:88-98 | a received tree has the bits of its bytes |
| `MerkleBlock.PartialMerkleTree.TraverseAndBuild` | src/merkleblock.cpp:69-88 | appends exactly the bits and hashes of the pure build |
| `MerkleBlock.PartialMerkleTree.TraverseAndExtract` | src/merkleblock.cpp:90-126 | computes the pure extraction, appending to the lists handed in and only ever raising fBad |
| `MerkleBlock.PartialMerkleTree.ExtractMatches` | src/merkleblock.cpp:144-175 | computes the checks and the pure extraction, appending to the positions handed in |
| `MerkleMessage.AcceptedIff` | src/merkleblock.cpp:90-175 | a message is accepted exactly when it spells a tree of the right shape without equal siblings: all its hashes, and its flag bits up to the next byte, with 1 to 33333 transactions |
| `MerkleMessage.SpelledIsRead` | src/merkleblock.cpp:90-175 | and then yields the root of that tree and its flagged leaves with their positions |
| `MerkleMessage.ReadsTree` | src/merkleblock.cpp:90-126 | any written tree is read back, wherever it stands |
| `MerkleMessage.TreeRead` | src/merkleblock.cpp:90-126 | an extraction without error has read a written tree |
| `MerkleMessage.RootIsLevelRoot` | src/consensus/merkle.cpp:46-64 | the root of the tree is the root computed level by level |
| `MerkleBlock.SendAndExtract` | src/merkleblock.cpp:128-175 | build, pack, unpack and extract: the receiver gets the root and exactly the masked txids and positions |
| `CuckooCache.SetCollected` | src/cuckoocache.h:92-95 | setting one packed flag changes that flag only |
| `CuckooCache.UnsetCollected` | src/cuckoocache.h:103-106 | clearing one packed flag changes that flag only |
| `CuckooCache.SlotInRange` | src/cuckoocache.h:243-253 | every hash is scaled to a slot of the table |
| `CuckooCache.SlotFair` | src/cuckoocache.h:243-253 | the slots share the 2^32 hashes evenly: an interval of 2^32 / size of them, or one more, for each |
| `CuckooCache.LocsAre` | src/cuckoocache.h:243-253 | each of the eight hash functions gives one slot |
| `CuckooCache.LiveSwap` | src/cuckoocache.h:430-435 | swapping an element into a live slot exchanges it for the one that was there |
| `CuckooCache.CurrentUpdate` | src/cuckoocache.h:289-321 | rewriting one slot's flags changes the count of current-epoch slots by at most that slot |
| `CuckooCache.Cache.constructor` | src/cuckoocache.h:340-353 | a new cache is valid, with its size, hash and filler, an epoch of 45 percent of the size computed in 32 bits, and no live element |
| `CuckooCache.FlagsCoverIff` | src/cuckoocache.h:61-67 | the packed flags reach over the whole table exactly when its size is at most 2^32 - 8; above that there is no flag at all |
| `CuckooCache.NoFlagsAtAll` | src/cuckoocache.h:61-67 | at size 0xFFFFFFF9 the 32-bit sum wraps and the flags have no byte |
| `CuckooCache.Cache.EpochCheck` | src/cuckoocache.h:289-321 | keeps placement; starts a new epoch exactly when the counter is zero and the current epoch full, turning exactly the older slots into garbage; sets the counter; leaves room in the current epoch |
| `CuckooCache.Cache.Insert` | src/cuckoocache.h:392-440 | keeps the invariant; beyond what the epoch check released at most one element is lost, and none when a slot of the new element holds it or is open; the new element and those of the current epoch are of the current epoch afterwards unless lost; the table, garbage and marks are those of a chain of evictions (InsertedAs) |
| `CuckooCache.Cache.SwapIn` | src/cuckoocache.h:430-435 | swaps element and epoch mark of one slot with the ones at hand |
| `CuckooCache.Cache.Displace` | src/cuckoocache.h:406-439 | an eviction chain: each element without an open slot pushes the one in its next slot on, marks move along, and the chain ends with the first open slot of its last element or at the depth limit |
| `CuckooCache.ChainKeeps` | src/cuckoocache.h:406-439 | along a chain every live element keeps one of its own slots, and every recent one its mark, but for the one pushed out last |
| `CuckooCache.DisplacedSettles` | src/cuckoocache.h:406-439 | so at most that one is lost, and none when the new element has an open slot |
| `CuckooCache.RecentUpdate` | src/cuckoocache.h:430-435 | an element put in with a mark joins the recent ones, and the one it replaces leaves |
| `CuckooCache.Cache.Contains` | src/cuckoocache.h:467-477 | true exactly when one of the eight slots holds the element; live elements are always found; erasing marks the first slot that holds it and affects no other element |
| `CuckooCache.EraseThenUse` | src/cuckoocache.h:392-477 | a live element erased marks one of its own slots; after any further operations it is still in that slot and found, or else there is a first operation that put something else there, and that is an insert |
| `CuckooCache.Step` | src/cuckoocache.h:392-477 | one operation: what it finds, which slots it may rewrite, what it may release, that at most one live element is lost, none when the inserted one fits, which elements are of the current epoch, and the counter |
| `CuckooCache.InsertOk` | src/cuckoocache.h:392-440 | what an insert and its epoch check do together is such a step |
| `CuckooCache.Perform` | src/cuckoocache.h:289-477 | any operations on any valid cache make such a run, from its contents and flags before to those after |
| `CuckooCache.FirstTaken` | src/cuckoocache.h:392-477 | along a run a slot keeps its element up to the first insert that rewrites it |
| `CuckooCache.Run` | src/cuckoocache.h:289-477 | any operations on a new cache of the given size, hash and filler, with its epoch size: after each, live elements sit in their own slots and are found, at most one was lost beyond those released and none by an insert that fits, the recent ones stay recent but for at most one until the epoch ends, only inserts rewrite slots, and the current epoch has at most epoch_size + max(1, epoch_size / 16) entries |
| `CuckooCache.InsertedLasts` | src/cuckoocache.h:289-440 | in any run, while there is room and it is not erased, an inserted element is live through the next epoch_size + 1 inserts, however the epochs fall |
| `RollingBloom.WipeForgets` | src/bloom.cpp:349-358 | starting a generation clears exactly the stamps that are three generations old |
| `RollingBloom.WipedEverywhere` | src/bloom.cpp:349-358 | the word-parallel masks clear exactly the cells whose stamp is the new generation's number |
| `RollingBloom.StampedAt` | src/bloom.cpp:363-370 | the two assignments set one cell's stamp and change no other cell |
| `RollingBloom.RecordedWiped` | src/bloom.cpp:341-360 | wiping keeps the record: every stamp tells the generation of the last key that hit the cell, or nothing if that is too long ago |
| `RollingBloom.RecordedMarked` | src/bloom.cpp:361-370 | stamping a key's cells keeps the record, with the key added |
| `RollingBloom.SetIffRecent` | src/bloom.cpp:378-390 | a cell is set exactly when a key of the last three generations hit it |
| `RollingBloom.RecentIsFound` | src/bloom.cpp:308-324 | two whole generations hold at least nElements keys, so the cells of each of the last nElements keys count as hit |
| `RollingBloom.RollingBloomFilter.constructor` | src/bloom.cpp:301-327 | a new filter is valid and remembers nothing |
| `RollingBloom.RollingBloomFilter.Reset` | src/bloom.cpp:398-406 | every stamp is cleared |
| `RollingBloom.RollingBloomFilter.Wipe` | src/bloom.cpp:349-358 | clears the stamps of the current generation number, by whole words |
| `RollingBloom.RollingBloomFilter.Mark` | src/bloom.cpp:363-370 | stamps exactly the key's cells; FastMod stays in range |
| `RollingBloom.RollingBloomFilter.Insert` | src/bloom.cpp:341-370 | keeps the record of all keys since the reset |
| `RollingBloom.RollingBloomFilter.Contains` | src/bloom.cpp:378-390 | true exactly when every hash of the key shares its bit and pair of words with a hash of a key of the last three generations; the last nElements keys are found |
| `RollingBloom.FastModFair` | src/bloom.cpp:337-339 | the 2^32 hashes are spread evenly: an interval of 2^32 / n of them, or one more, for every index below n |
| `RollingBloom.FastModMonotone` | src/bloom.cpp:337-339 | larger hashes never get a smaller index |
| `RollingBloom.ElsewhereIsNotFound` | src/bloom.cpp:378-390 | a filter holding one key answers false for a key with a hash in another pair of words |
| `RollingBloom.InsertAllAndAsk` | src/bloom.cpp:341-390 | any inserts into a new filter: exactly which keys are found, by their hashes and the number of inserts, and each of the last nElements keys in any case |
| `DbTransaction.LessTransitive` | src/dbwrapper.h:566-571 | the key order is transitive |
| `DbTransaction.LessTotal` | src/dbwrapper.h:566-571 | the key order is total |
| `DbTransaction.LessIff` | src/dbwrapper.h:566-571 | one key is less than another exactly when, at the first place where they differ, it ends or has the smaller byte |
| `DbTransaction.LeastOf` | src/dbwrapper.h:444-449 | an ordered container's cursor position is the least key ahead |
| `DbTransaction.MergeLeast` | src/dbwrapper.h:542-554 | the smaller of two cursors is the least key of both sets |
| `DbTransaction.Smallest` | src/dbwrapper.h:542-554 | the key an iterator is at is the least of all overlay keys it has ahead |
| `DbTransaction.AfterLeast` | src/dbwrapper.h:455-468 | moving a cursor past its key leaves exactly the other keys ahead |
| `DbTransaction.CostWithout` | src/dbwrapper.h:620-633 | the cost sum splits off any one key, so it can be kept up incrementally |
| `DbTransaction.OverlayWrite` | src/dbwrapper.h:620-633 | a pending write updates the overlay map at its key |
| `DbTransaction.OverlayErase` | src/dbwrapper.h:681-690 | a pending delete removes its key from the overlay map |
| `DbTransaction.Transaction.Write` | src/dbwrapper.h:620-633 | the view gains the pair; writes and deletes stay disjoint; every write is charged its serialized size and memoryUsage stays exact |
| `DbTransaction.Transaction.Erase` | src/dbwrapper.h:681-690 | the view loses the key; memoryUsage stays exact |
| `DbTransaction.Transaction.Read` | src/dbwrapper.h:641-657 | reads the overlay map, through any number of transactions below |
| `DbTransaction.Transaction.Exists` | src/dbwrapper.h:664-674 | agrees with the overlay map |
| `DbTransaction.Transaction.Clear` | src/dbwrapper.h:692-696 | the view is the parent again |
| `DbTransaction.Transaction.Commit` | src/dbwrapper.h:698-706 | the target, a store, a batch or the transaction below, becomes its overlay, and nothing is pending; if the target is the parent, the view does not change and the parent reads the same from then on |
| `DbTransaction.Store.WriteBatch` | src/dbwrapper.cpp:183-197 | a batch is applied to a store in the order it was filled |
| `DbTransaction.Transaction.IsClean` | src/dbwrapper.h:708-710 | true exactly when nothing is pending; then the view is the parent and nothing is charged |
| `DbTransaction.Transaction.GetMemoryUsage` | src/dbwrapper.h:712-723 | the exact sum of key lengths and charges over writes and deletes, each charge the serialized size of its value: the fallback for a negative sum is never needed |
| `DbTransaction.TransactionIterator.Seek` | src/dbwrapper.h:444-449 | all overlay keys from the seek point on lie ahead |
| `DbTransaction.TransactionIterator.SeekToFirst` | src/dbwrapper.h:432-437 | all overlay keys lie ahead |
| `DbTransaction.TransactionIterator.SkipDeletedAndOverwritten` | src/dbwrapper.h:532-540 | the parent's iterator, itself a merging one or not, stops at its next key that is neither deleted nor overwritten |
| `DbTransaction.TransactionIterator.IsValid` | src/dbwrapper.h:451-453 | true exactly when keys are ahead |
| `DbTransaction.TransactionIterator.GetKey` | src/dbwrapper.h:497-506 | the least key ahead |
| `DbTransaction.TransactionIterator.GetValue` | src/dbwrapper.h:520-529 | the overlay's value at that key |
| `DbTransaction.TransactionIterator.Next` | src/dbwrapper.h:455-468 | passes exactly the least key |
| `DbTransaction.Walk` | src/dbwrapper.h:406-555 | lists exactly the keys of the overlay from the seek point on, in the order of their first differing bytes, with their values |
| `EvoDb.Run` | src/evo/evodb.h:33-111 | any run of a transaction over a transaction over the database: reads, scans, commits and rollbacks answer like a plain triple of maps, the root is written exactly when nothing is pending above it, and the disk and both transactions end as in the plain model |
| `EvoDb.StoredWasRoot` | src/evo/evodb.h:33-111 | what is on disk is at any time what the lower transaction read at some earlier point of the run, or the contents at the start |
| `EvoDb.Scope` | src/evo/evodb.cpp:10-33 | a scope on a database with nothing pending: all its changes reach the lower transaction or none does, and nothing stays pending |
| `EvoDb.Database.CommitCurTransaction` | src/evo/evodb.cpp:43-47 | the lower transaction comes to read what the upper one reads, which reads as before |
| `EvoDb.Database.RollbackCurTransaction` | src/evo/evodb.cpp:49-53 | the upper transaction comes to read what the lower one reads |
| `EvoDb.Database.CommitRootTransaction` | src/evo/evodb.cpp:55-63 | the disk comes to hold what the lower transaction reads, and no view changes; refused while changes are pending |
| `DbTransaction.Run` | src/dbwrapper.h:406-731 | any run of writes, erases, reads, scans, commits and clears answers like a plain pair of maps, and leaves the same contents stored |
| `ArithUint.BaseUint.Add` | src/arith_uint256.h:143-153 | the sum modulo 2^BITS, also when a number is added to itself |
| `ArithUint.BaseUint.Sub` | src/arith_uint256.h:155-159 | the difference modulo 2^BITS |
| `ArithUint.BaseUint.Complement` | src/arith_uint256.h:77-83 | 2^BITS - 1 minus the number |
| `ArithUint.BaseUint.Negate` | src/arith_uint256.h:85-92 | the negation modulo 2^BITS |
| `ArithUint.BaseUint.Increment` | src/arith_uint256.h:181-188 | plus one, modulo 2^BITS |
| `ArithUint.BaseUint.Decrement` | src/arith_uint256.h:198-205 | minus one, modulo 2^BITS |
| `ArithUint.BaseUint.SetU64` | src/arith_uint256.h:96-103 | the 64-bit value |
| `ArithUint.BaseUint.AddU64` | src/arith_uint256.h:161-167 | plus a 64-bit value, modulo 2^BITS |
| `ArithUint.BaseUint.GetLow64` | src/arith_uint256.h:255-259 | the number modulo 2^64 |
| `ArithUint.BaseUint.MulSmall` | src/arith_uint256.cpp:59-68 | the product with a 32-bit number modulo 2^BITS, the carry fitting 64 bits |
| `ArithUint.BaseUint.Mul` | src/arith_uint256.cpp:71-84 | the product modulo 2^BITS, also of a number with itself |
| `ArithUint.RowEnd` | src/arith_uint256.cpp:74-81 | adding one row of partial products multiplies by one limb more, up to a multiple of 2^BITS |
| `ArithUint.BaseUint.Shl` | src/arith_uint256.cpp:25-39 | multiplication by a power of two modulo 2^BITS, for every shift count |
| `ArithUint.ShlValue` | src/arith_uint256.cpp:25-39 | the limbs the left-shift loop leaves stand for that product |
| `ArithUint.BaseUint.Shr` | src/arith_uint256.cpp:42-56 | division by a power of two, for every shift count |
| `ArithUint.ShrValue` | src/arith_uint256.cpp:42-56 | the limbs the right-shift loop leaves stand for that quotient |
| `ArithUint.BaseUint.CompareTo` | src/arith_uint256.cpp:113-122 | the sign of the comparison of the numbers |
| `ArithUint.BaseUint.EqualTo` | src/arith_uint256.cpp:125-136 | equality with a 64-bit value |
| `ArithUint.BaseUint.Bits` | src/arith_uint256.cpp:198-210 | the bit length |
| `ArithUint.BaseUint.Div` | src/arith_uint256.cpp:87-110 | floor quotient, with the remainder left in the loop; division by zero is reported after the number was set to zero |
| `ArithUint.DivideStep` | src/arith_uint256.cpp:101-108 | one turn keeps dividend = quotient * divisor + rest, with the rest below twice the shifted divisor |
| `ArithUint.Aligned` | src/arith_uint256.cpp:99-100 | shifting the divisor by the difference of the bit lengths aligns it without overflow |
| `CompactTarget.OverflowIff` | src/arith_uint256.cpp:246-248 | the overflow condition holds exactly when the magnitude is at least 2^256 |
| `CompactTarget.KnownCompacts` | src/test/arith_uint256_tests.cpp:412-535 | compact forms with a known value and sign |
| `CompactTarget.SetCompact` | src/arith_uint256.cpp:232-250 | the number is the magnitude modulo 2^256; both flags say exactly what they are named for |
| `CompactTarget.GetCompact` | src/arith_uint256.cpp:252-273 | the compact form; neither assert can fail |
| `CompactTarget.CompactReadsBack` | src/arith_uint256.cpp:232-273 | reading a compact form back clears low-order bytes only, keeps the sign and never overflows |
| `CompactTarget.CompactIsStable` | src/arith_uint256.cpp:252-273 | compacting the number read back gives the same compact form |
| `CompactTarget.CompactAndBack` | src/arith_uint256.cpp:232-273 | both on one number in place |
| `CompactTarget.TargetPlusOne` | src/chain.cpp:121-134 | a target that fits is never all ones, so adding one does not wrap |
| `CompactTarget.GetBlockProof` | src/chain.cpp:121-134 | floor(2^256 / (target + 1)) for every valid nonzero target, zero otherwise; no division by zero, no wrap |
| `SkipList.GetSkipHeight` | src/chain.cpp:70-81 | a skip link leads strictly back |
| `SkipList.TurnsBounded` | src/chain.cpp:77-108 | going back fewer than 2^n blocks takes at most n^2 / 4 + 4 n + 4 turns, whatever the height |
| `SkipList.FromOdd` | src/chain.cpp:83-108 | from an odd height above the middle of a block of heights two bits go per turn |
| `SkipList.FromAbove` | src/chain.cpp:83-108 | from any height there at least a bit goes per turn |
| `Chain.BlockIndex.GetAncestor` | src/chain.cpp:83-108 | the ancestor at that height by the pprev links, or null out of range; it never meets a missing pprev, and with all skip links there the loop makes no more turns than that bound |
| `Chain.BlockIndex.BuildSkip` | src/chain.cpp:115-119 | sets the skip link to the ancestor at the skip height, keeping the block sound |
| `Chain.InsertBlock` | src/chain.cpp:115-119 | a block added with BuildSkip is sound, its path one longer than its parent's |
| `Chain.Grow` | src/chain.cpp:83-119 | every block of every tree grown that way is sound and has all its skip links |
| `Chain.CChain.SetTip` | src/chain.cpp:11-21 | the chain becomes exactly the tip's path, although the loop stops at the first block already there |
| `Chain.FollowTips` | src/chain.cpp:11-21 | after any sequence of tips the chain is the last tip's path |
| `Chain.CChain.ContainsIff` | src/chain.h:471-473 | comparing the block at one height decides membership |
| `Chain.CChain.Next` | src/chain.h:476-481 | the block's successor in the chain, or null for the tip and for blocks outside |
| `Chain.CChain.FindFork` | src/chain.cpp:51-60 | the highest block of the chain that is an ancestor of the given one, or null if there is none |
| `Chain.LastCommonAncestor` | src/chain.cpp:155-183 | the last common ancestor exactly when the shorter path has at most 10,000,000 blocks above the fork |
| `Chain.LastSharedIsHighest` | src/chain.cpp:153-155 | that block is an ancestor of both and no common ancestor is higher |
| `Chain.ForkOfDepth` | src/chain.cpp:171-183 | two branches of n blocks on one genesis block: found right exactly for n up to 10,000,000 |
| `CompactBlocks.EncodeIndexes` | src/blockencodings.h:62-67 | differences, with a negative one as a huge unsigned number |
| `CompactBlocks.DecodeIndexes` | src/blockencodings.h:42-61 | accepts exactly 16-bit differences that add up to 16-bit indexes, and returns those |
| `CompactBlocks.SendIndexes` | src/blockencodings.h:37-68 | a list of indexes survives the wire exactly when it increases strictly |
| `CompactBlocks.PlaceNext` | src/blockencodings.cpp:61-75 | the checks on a prefilled transaction put it at an empty slot inside the array, behind the ones before it |
| `CompactBlocks.MapNext` | src/blockencodings.cpp:84-100 | the i-th short id is mapped to the i-th empty slot, or a duplicate shows in the map's size |
| `CompactBlocks.WellFormedIff` | src/blockencodings.cpp:50-75 | a message is well formed exactly when it has a header, an allowed number of transactions, no null one in full, and the last position is inside the block and 16-bit |
| `CompactBlocks.ShortIdsAgree` | src/blockencodings.cpp:43-46 | short ids are the low 48 bits of the keyed hash |
| `CompactBlocks.FreeIsUnique` | src/blockencodings.cpp:84-87 | there is only one i-th empty slot |
| `CompactBlocks.PartiallyDownloadedBlock.PlacePrefilled` | src/blockencodings.cpp:60-76 | succeeds exactly when every prefilled transaction passes its checks, and then they are at their positions and the rest is empty |
| `CompactBlocks.PartiallyDownloadedBlock.MapShortIds` | src/blockencodings.cpp:82-104 | succeeds exactly when the short ids are distinct and no bucket is crowded; the scan never leaves the array |
| `CompactBlocks.PartiallyDownloadedBlock.MatchPool` | src/blockencodings.cpp:110-127 | a transaction whose short id is mapped fills its slot the first time and empties it for good the second; any other changes nothing; the counter stays the number of slots filled |
| `CompactBlocks.PartiallyDownloadedBlock.MatchExtra` | src/blockencodings.cpp:136-159 | likewise, but the same transaction again is no second match and leaves the slot as it is |
| `CompactBlocks.PoolKeepsOnlyMatch` | src/blockencodings.cpp:106-133 | scanning the pool fills a slot exactly when one of its transactions matches and no other does, and with that one |
| `CompactBlocks.ExtraKeepsAgreed` | src/blockencodings.cpp:136-159 | scanning the extra transactions leaves a slot the pool emptied alone, and empties a full one exactly when some match differs from it |
| `CompactBlocks.ExtraTakesAgreed` | src/blockencodings.cpp:136-159 | a slot the pool did not match gets the first match among them exactly when all matches agree with it, and is empty otherwise |
| `CompactBlocks.PartiallyDownloadedBlock.InitData` | src/blockencodings.cpp:50-170 | invalid exactly for malformed messages, failed exactly for duplicate short ids or a crowded bucket; otherwise the slots are what both scans leave, each run to its end or until every slot is full, and mempool_count is the number of non-prefilled slots filled |
| `CompactBlocks.PartiallyDownloadedBlock.FillBlock` | src/blockencodings.cpp:178-199 | full slots keep their transaction and the empty ones take the missing ones in order; any other number of them is invalid |
| `CompactBlocks.CompactForm` | src/blockencodings.cpp:20-30 | the coinbase in full and a short id for every other transaction |
| `CompactBlocks.FilledRight` | src/blockencodings.cpp:50-165 | with short ids injective over the block and everything known, every filled slot holds the block's own transaction |
| `CompactBlocks.KnownIsFilled` | src/blockencodings.cpp:106-165 | and a transaction of the block that is in the pool or among the extra ones is in its slot, if the pool holds none twice |
| `CompactBlocks.Missing` | src/net_processing.cpp:3114-3118 | lists exactly the empty slots in order |
| `CompactBlocks.Answer` | src/net_processing.cpp:1776-1789 | the transactions at the indexes asked for |
| `CompactBlocks.AskedFor` | src/net_processing.cpp:3114-3118 | the request names every unknown transaction and, if the pool holds none twice, only those |
| `CompactBlocks.MissingAreNeeded` | src/net_processing.cpp:1776-1789 | the answer to the request is the list of missing transactions in order |
| `CompactBlocks.Rebuilt` | src/blockencodings.cpp:178-199 | then the missing transactions in order complete the block |
| `CompactBlocks.Exchange` | src/blockencodings.cpp:20-199 | the whole exchange rebuilds the block, whatever the receiver knows, and asks for every transaction it does not know and, if its pool holds none twice, for no other |
| `BitStream.BitStreamWriter.Write` | src/streams.h:538-552 | appends exactly the given number of low bits, highest first, at any offset |
| `BitStream.BitStreamWriter.Finish` | src/streams.h:558-566 | what was written stays, followed by less than a byte of padding |
| `BitStream.BitStreamReader.Read` | src/streams.h:490-508 | reads exactly the next bits, and fails exactly when there are too few |
| `GcsFilter.DecodeEncode` | src/blockfilter.cpp:17-46 | Golomb-Rice decoding undoes encoding, whatever bits follow |
| `GcsFilter.GolombBits` | src/blockfilter.cpp:18-32 | the code of a number bit by bit |
| `GcsFilter.GolombRiceEncode` | src/blockfilter.cpp:17-32 | appends the code of the number, unary blocks of 64 bits included |
| `GcsFilter.GolombRiceDecode` | src/blockfilter.cpp:34-46 | reads one code off the stream, or fails exactly when it ends too early |
| `GcsFilter.MapIntoRange` | src/blockfilter.cpp:53-77 | the 32-bit piecewise product is the upper 64 bits of the 128-bit product, and lies below n |
| `GcsFilter.HashToRangeFair` | src/blockfilter.cpp:79-85 | the 2^64 hashes are spread evenly over the range: 2^64 / F of them, or one more, for every value |
| `GcsFilter.HashToRangeOf` | src/blockfilter.cpp:79-85 | only the keyed hash of an element decides its value |
| `GcsFilter.CompactSizeReads` | src/serialize.h:269-323 | a size reads back exactly when it is at most 0x02000000 |
| `GcsFilter.CompactSizeForm` | src/serialize.h:269-291 | the form of a count: one byte, or a mark and the shortest of two, four or eight bytes, lowest first |
| `GcsFilter.BuildHashedSet` | src/blockfilter.cpp:87-96 | the mapped hashes of all elements, sorted |
| `GcsFilter.Build` | src/blockfilter.cpp:128-157 | the encoding holds the count, the codes of the sorted hashes' differences, and padding; too many elements fail |
| `GcsFilter.Load` | src/blockfilter.cpp:102-126 | accepts exactly encodings with a readable count, that many numbers and nothing but padding after them; what it accepts can be matched |
| `GcsFilter.BuiltLoads` | src/blockfilter.cpp:102-157 | a built filter loads again exactly when it has at most 0x02000000 elements |
| `GcsFilter.MatchInternal` | src/blockfilter.cpp:159-189 | for any loaded or built filter: true exactly when a query equals a value that no earlier value exceeds, the values being the running sums modulo 2^64; it fails exactly for a count over the limit |
| `GcsFilter.Match` | src/blockfilter.cpp:191-195 | the same for the mapped hash of one element |
| `GcsFilter.MatchAny` | src/blockfilter.cpp:197-201 | the same for the mapped hashes of several elements |
| `GcsFilter.AscendingHit` | src/blockfilter.cpp:159-189 | on ascending values that is plain membership |
| `GcsFilter.AscendingIff` | src/blockfilter.cpp:159-189 | the values of a filter ascend exactly when no running sum reaches 2^64 |
| `GcsFilter.WrappedIsMissed` | src/blockfilter.cpp:159-189 | two numbers whose sum passes 2^64: the second value is in the filter and no query finds it |
| `GcsFilter.BuiltHit` | src/blockfilter.cpp:159-201 | on a built filter the match is two equal mapped hashes |
| `GcsFilter.QueryBuilt` | src/blockfilter.cpp:87-201 | build, load and match: exact on mapped hashes, so an element that was put in is never missed |
| `Bech32.StepLinear` | src/bech32.cpp:64-94 | one step of the checksum is linear over exclusive or |
| `Bech32.StepZero` | src/bech32.cpp:64-94 | only the zero state steps to zero on a zero symbol, so a step is injective on 30-bit states |
| `Bech32.RunInjective` | src/bech32.cpp:37-94 | different states stay different whatever symbols follow |
| `Bech32.PolyMod` | src/bech32.cpp:37-94 | the state after all symbols |
| `Bech32.VerifyChecksum` | src/bech32.cpp:118-125 | whether the state ends at one |
| `Bech32Vectors.PublishedString` | src/test/bech32_tests.cpp:25-43 | a published string, in lower and in upper case, is accepted, and is the encoding of its parts |
| `Bech32Vectors.PublishedTable` | src/bech32.cpp:13 | the symbols in order are the characters of the published table |
| `Bech32.CreateChecksum` | src/bech32.cpp:128-139 | six symbols that make the checksum verify |
| `Bech32.ErrorDetected` | src/bech32.cpp:118-125 | a change confined to six neighbouring symbols never verifies, at any length |
| `Bech32.SingleErrorDetected` | src/bech32.cpp:118-125 | changing one data or checksum symbol never verifies |
| `Bech32Distance.ThreeErrorsDetected` | src/bech32.cpp:44-49 | changing up to three data or checksum symbols, anywhere within 1023 places of each other, never verifies |
| `Bech32Distance.WordErrorsDetected` | src/bech32.cpp:117-125 | the same of the whole word the checksum is computed of, human-readable part included |
| `Bech32Distance.HrpErrorDetected` | src/bech32.cpp:103-125 | changing one character of the human-readable part and up to one other symbol never verifies, in a word of at most 1023 symbols |
| `Bech32Distance.TwoErrorsDetected` | src/bech32.cpp:44-49 | two symbols, in particular |
| `Bech32Distance.StepValue` | src/bech32.cpp:64-94 | at each of three roots in the field of 1024 elements, a step of the checksum multiplies the remainder's value by the root and adds the symbol |
| `Bech32Distance.FeedbackValue` | src/bech32.cpp:86-91 | the five constants feed back exactly what is shifted out, seen at those roots |
| `Bech32Distance.SparseNonzero` | src/bech32.cpp:44-49 | a word of at most three symbols within 1023 places has a nonzero remainder |
| `Field1024.Vandermonde` | src/bech32.cpp:44-49 | three equations in powers of three distinct elements have only the zero solution |
| `Field1024.NoZeroDivisors` | src/bech32.cpp:51-58 | polynomials over the bits modulo z^10 + z^3 + 1 have no divisors of zero |
| `Field1024.PowersDiffer` | src/bech32.cpp:44-49 | powers of the ratio of the roots less than 1023 apart differ |
| `Bech32.CharOfSymbol` | src/bech32.cpp:13-25 | the reverse table undoes the character table, which has neither the separator nor upper case |
| `Bech32.SymbolOfChar` | src/bech32.cpp:13-25 | and the character table undoes the reverse table, up to case |
| `Bech32.Encode` | src/bech32.cpp:147-156 | the human-readable part, the separator, and the characters of values and a checksum that verifies |
| `Bech32.Decode` | src/bech32.cpp:159-189 | accepts exactly printable text of one case with the last separator in place, known characters and a checksum that verifies, and returns its parts |
| `Bech32.EncodeThenDecode` | src/bech32.cpp:147-189 | decoding undoes encoding for every non-empty printable part without upper case, the separator included, exactly up to 90 characters |
| `Bech32.DecodeThenEncode` | src/bech32.cpp:147-189 | encoding undoes decoding, up to case |
| `Bech32.ChecksumUnique` | src/bech32.cpp:118-139 | only one checksum verifies |
| `Base58.MulAdd` | src/base58.cpp:56-62 | the carry loop computes buffer * factor + digit in place and uses its carry up |
| `Base58.EncodeFits` | src/base58.cpp:93-106 | 138/100 base-58 digits per byte, plus one, always suffice |
| `Base58.DecodeFits` | src/base58.cpp:47-62 | 733/1000 bytes per base-58 digit, plus one, always suffice |
| `Base58.SameUnique` | src/base58.cpp:71-79 | digits without superfluous zeros are determined by their number and their leading zeros |
| `Base58.AlphabetMaps` | src/base58.cpp:14-32 | the digit table undoes the alphabet and the other way round |
| `Base58.AlphabetIs` | src/base58.cpp:14 | the digits in order are the characters of the published alphabet |
| `Base58.SpacesAre` | src/base58.cpp:36-37 | which characters are white space |
| `Base58.EncodingOfOneByte` | src/test/data/base58_encode_decode.json:3 | a published example |
| `Base58.EncodeBase58` | src/base58.cpp:83-121 | text of the same number with the same leading zeros |
| `Base58.DecodeBase58` | src/base58.cpp:34-81 | accepts exactly alphabet characters with white space around them, and returns bytes of the same number with the same leading zeros |
| `Base58.EncodeThenDecode` | src/base58.cpp:34-121 | decoding undoes encoding for every byte string |
| `Base58.DecodeThenEncode` | src/base58.cpp:34-121 | encoding undoes decoding, without the white space around the text |

## Left out

- Coins: AddCoins, the best-block hash, memory estimates, several children over one parent, partial batches and failures of the database.
- CheckQueue: creation and interruption of threads, the CCheckQueueControl guard; a check is modelled by its outcome.
- AddrMan: Serialize and Unserialize (stored keys are not normalised there), how an address range is derived from an address (GetGroup), Select_ and GetChance (floating point, loops that end with probability 1), Clear of a used manager, overflow of the id counter; services are a set of flags and the tables are values replaced slot by slot.
- AddrMan.Run: Good is called with positive times and Attempt with times that are not negative, as callers do; Good and Attempt themselves say exactly what other times do.  The adjusted time read while collisions are resolved is positive.
- Coins.Run: additions are those its callers promise, without permission to overwrite only where no unspent coin is replaced; AddCoin itself says what happens otherwise.
- CuckooCache.Cache.constructor: sizes from 2^32 - 7 on are excluded, where the flags have no byte (FlagsCoverIff); the depth limit is a parameter of at least 1, as the logarithm in the source is; CuckooCache.Run inherits both.
- CuckooCache.Run: the size is at most 2^32 - 8, as for the constructor.
- CompactBlocks.PartiallyDownloadedBlock.InitData: asks for at most 65535 transactions, which the reader of a message checks (src/blockencodings.h:189-190), and for a new object; larger messages built locally would wrap the 16-bit positions.
- CompactBlocks.PartiallyDownloadedBlock.FillBlock: the outcome of the block check is a parameter.
- CompactBlocks.Exchange: the block has no transaction twice and short ids tell apart everything known; otherwise the answer is to fail or to ask for the whole block.  That only unknown transactions are asked for needs a pool without duplicates, as the mempool is: a second copy empties the slot.
- MerkleBlock.ExtractionSound: needs no collision among the pairs actually hashed, and with a zero root that the extraction was accepted; ZeroRootIsUnsound shows why.
- RollingBloom.RollingBloomFilter.constructor: nElements is between 1 and 2^32 - 2, with an even, nonempty table.
- GcsFilter.GolombRiceEncode: P is below 64, as is GolombRiceDecode's; the shifts are undefined otherwise.
- Chain.BlockIndex.BuildSkip: called after its predecessors have their links.
- MerkleBlock: the header and filter parts of CMerkleBlock.
- CuckooCache: concurrent readers; the memory order of the flags; setup_bytes.  Table and flags are values replaced slot by slot.
- RollingBloom: the floating-point sizing in the constructor (table size and number of hash functions are parameters), nElements of 0 (an empty table) and of 2^32 - 1 (the generation size wraps to 0).  Words are the sequences of their bits.
- DbTransaction: values are of one type, so reading with another type than was written does not arise; nothing is written while an iterator is in use.
- EvoDb: locking, failures of the disk, VerifyBestBlock and WriteBestBlock (a read and a write of one key).
- ArithUint: hexadecimal text, conversion to double, bitwise and, or, xor of whole numbers.
- Chain: GetLocator, FindEarliestAtLeast, GetBlockProofEquivalentTime; all fields of a block but its links and height.
- CompactBlocks: serialization of whole messages, extra_count (logging only), the block check itself (its outcome is a parameter); a pool entry's recorded hash is the transaction's hash.
- GcsFilter: P of 64 and more (the shifts are undefined there), the choice of elements of a block, SipHash.
- Bech32: detection of four errors within 89 symbols, and of more than one changed character in the human-readable part.  The 30-bit state is the sequence of its bits.
- Base58: the checksummed form, and characters whose code is negative as a char.
- Everything else in the repository: consensus validation, networking, wallet, RPC, masternodes, scripts, cryptography, tools.
