# Verified models of a Bitcoin Core node's data structures

This project models, in Dafny, the self-contained cores of a Bitcoin Core 0.13.2 tree and proves what
they promise, for all inputs and all runs.

| part | modules | main results |
|---|---|---|
| Address manager | `AddrTypes`, `AddrView`, `AddrIndex`, `AddrMan`, `AddrCheck`, `AddrRuns`, `AddrSpread`, `AddrQuality`, `AddrCodec`, `AddrStream`, `AddrLoad`, `AddrRaw`, `AddrRebuild` | In every state reachable by any operations with any random outcomes the five indexes and both counters agree, the self check passes and no assertion fires. What a call can lose is bounded, and so is the share of the tables that any address range or any sources can take, over any run. Writing and reading the manager loses nothing. Reading any other stream, and clearing what a refused one leaves, gives a consistent manager under an exact condition on the stream. |
| Block assembly | `Mempool`, `FeeRates`, `Selection`, `Priority`, `Miner` | The lazily corrected side table always covers the true ancestor sums, and is exact for candidates that have not failed, but for an exactly known drift of adjusted fees; every block is closed, ordered, free of duplicates and within its limits. Packages are taken best first, each pays the minimum fee, and whatever is left out was refused for a reason that still holds or pays less than the minimum rate. |
| UTXO cache | `CoinTypes`, `CoinsCache`, `CoinsRuns` | Any stack of write-back caches behaves, over any run, like a stack of plain maps, layer by layer, and its memory accounting is off by an exactly known amount. |
| Check queue | `CheckQueue` | In every interleaving of any number of threads the master gets the right verdict, no wake-up is lost, the workers never all sleep while there is work, and every wait ends. |
| Partial Merkle trees | `MerkleTree`, `PartialMerkle` | Builder and parser are inverse, and the parser cannot be deceived under an injective hash. |
| Rolling Bloom filter | `RollingBloom` | An exact account of what is found, through the two bit planes, the reuse of generations and the cells that hashes share. |
| Compact blocks | `CompactBlock`, `ShortIdIndex`, `PoolScan`, `BlockReceiver`, `BlockRelay` | A whole exchange gives back the original block, whichever transactions the announcement prefills, and asks for no more than needed; no announcement leads out of range. |
| Block index | `SkipList`, `Chain` | Skip list, active chain, fork and locator are those of the plain ancestor path, and a walk along the skip list takes a number of steps quadratic in the digits of the height. |
| 256-bit arithmetic | `Limbs`, `BigUint`, `BigShift`, `BigDivide`, `Compact`, `Target`, `Retarget`, `Difficulty`, `DifficultyChain` | Limb arrays compute the integers they stand for; compact targets, work and retargeting are exact, and what they mean for a whole chain. |
| Base 58 | `Digits`, `Base58` | Encoding and decoding are inverse, and the buffers always suffice. |
| Record codec | `VarInt`, `OutputCodec`, `CoinsCodec`, `RecordExamples` | What a database record comes back as, in the integers' own widths, and when it is the same; amounts are compressed one to one. |
| Message framing | `Framing`, `Sending` | What a sender queues arrives message by message; the way a stream is cut into chunks, and when messages are taken out, makes no difference. |

Conventions. An object that the original changes in place is a class or an array changed in place, and its
methods are specified by what they do to an abstract value: a view of the address table, a plain map of
records, a path, an integer, a list of frames. Hash functions, signature checks, priorities and other
calculations from outside the modelled code are arbitrary functions; random choices are arbitrary choices;
fee rates, compared in floating point, are compared exactly; the time is a parameter. `Basics`, `MapSums` and `SetSums` hold shared definitions.

Results that differ from what one might expect of the code are stated as such, each with its exact
condition, and most with a concrete case: clearing a used address manager (`AddrMan.AddrMan.Clear`,
`AddrRuns.ClearedInUse`), a stream that is refused half-way or repeats an address (`AddrRebuild.Read`,
`AddrRebuild.ReadTruncated`, `AddrRebuild.SoundIff`, `AddrRebuild.ReadRepeated`), an address reported as
added but not stored (`AddrRuns.AddStoresIff`, `AddrRuns.AddedInVain`), a flush that drops the best block
(`CoinsCache.CoinsView.Flush`, `CoinsRuns.FlushForgetsBestBlock`), creating outputs that the base still has
(`CoinsCache.CoinsView.ModifyNewCoins`, `CoinsRuns.WipedRecordReturns`), memory accounting after a creation
over a cached entry (`CoinsRuns.ExactIff`, `CoinsRuns.DuplicateCoinbaseDrifts`), the fees of a package after
an adjustment (`Mempool.FeesExactIff`, `Miner.FeesOff`), a flush to a failing database
(`CoinsCache.CoinsView.Flush`), an announcement that prefills all places (`ShortIdIndex.EndlessIff`,
`BlockReceiver.AllPrefilledReadable`), one with more places than fit 16 bits (`PoolScan.ScannedIff`,
`BlockReceiver.Misplaced`), a header that names itself (`Chain.BlockTree.AddToBlockIndex`), the documented
bounds on flag bits and encoded size (`PartialMerkle.BitBoundIff`, `PartialMerkle.FourBitsForTwoHashes`,
`PartialMerkle.SizeBoundIff`, `PartialMerkle.OneByteTooMany`), an index list after position 65535
(`CompactBlock.RequestCanonical`, `CompactBlock.OffsetWraps`), a second encoding of a number
(`VarInt.CanonicalIff`, `VarInt.SecondZero`), negative versions and over-long scripts in a record
(`CoinsCodec.LoadedIff`, `CoinsCodec.LoadedVersion`), in-place squaring (`BigUint.Multiply`) and retargeting
near the test network's limit (`Target.RetargetIff`, `Target.TestNetworkIff`, `Target.TestNetworkWraps`).

`dafny verify dfyconfig.toml` checks everything.

## Model

| member | source | states |
|---|---|---|
| AddrView.GoodSettled | src/addrman.cpp:197-247 | after a good connection every entry is still tried or in one to eight buckets |
| AddrView.AddSettled | src/addrman.cpp:249-315 | so it is after hearing about an address, whatever the random choice |
| AddrIndex.CreateKeeps | src/addrman.cpp:88-98 | all five indexes stay mutually inverse when a record is created |
| AddrIndex.SwapKeeps | src/addrman.cpp:100-118 | exchanging two places of the random order keeps it inverse to the recorded positions |
| AddrIndex.PopKeeps | src/addrman.cpp:120-132 | dropping the last place of the random order together with its record keeps the indexes consistent |
| AddrIndex.UnlinkKeeps | src/addrman.cpp:134-147 | giving up one cell keeps the reference count equal to the number of cells held |
| AddrIndex.LinkKeeps | src/addrman.cpp:304-307 | so does taking a free cell at the canonical position |
| AddrIndex.UntryKeeps | src/addrman.cpp:174-177 | taking an entry out of its tried slot leaves no tried entry without its slot |
| AddrIndex.EntryKeeps | src/addrman.cpp:190-194 | an unreferenced entry put in the slot its address selects makes the tried table consistent again |
| AddrIndex.RepSeparated | src/addrman.cpp:425-451 | no cell of either table belongs to two addresses |
| AddrIndex.Capacity | src/addrman.cpp:387-393 | there are never more entries than cells |
| AddrMan.AddrMan.constructor | src/addrman.h:474-477 | a new manager is consistent and empty |
| AddrMan.AddrMan.Clear | src/addrman.h:453-472 | resets the tables but not the record maps: the result is consistent exactly if both maps were empty before |
| AddrMan.AddrMan.Find | src/addrman.cpp:75-86 | finds exactly the known addresses, with the record the view describes |
| AddrMan.AddrMan.Create | src/addrman.cpp:88-98 | adds one unreferenced entry under the next id and changes nothing else |
| AddrMan.AddrMan.SwapRandom | src/addrman.cpp:100-118 | exchanges two places and nothing but the recorded positions, also while the other indexes disagree |
| AddrMan.AddrMan.Delete | src/addrman.cpp:120-132 | removes exactly the address of an unreferenced entry, and the count of new entries drops by one |
| AddrMan.AddrMan.ClearNew | src/addrman.cpp:134-147 | empties one cell, dropping its owner exactly if that was its last reference, with the counts kept exact |
| AddrMan.AddrMan.UnlinkAll | src/addrman.cpp:151-161 | all references of an entry are given up and nothing else changes |
| AddrMan.AddrMan.DemoteOccupant | src/addrman.cpp:167-189 | the tried entry in the way moves back to the one new cell its own source selects, displacing at most that cell's owner |
| AddrMan.AddrMan.MakeTried | src/addrman.cpp:149-195 | the entry moves to the tried slot its address selects, with all indexes and both counts exact |
| AddrMan.AddrMan.FindBucket | src/addrman.cpp:226-241 | the search for a bucket fails only for an entry without references, so the bail-out is never taken for a settled one |
| AddrMan.AddrMan.Good | src/addrman.cpp:197-247 | keeps every consistency condition and refines the abstract operation |
| AddrMan.AddrMan.Add | src/addrman.cpp:249-315 | keeps every consistency condition, refines the abstract operation for every random outcome, and answers whether the address was unknown |
| AddrMan.AddrMan.UpdateHeard | src/addrman.cpp:258-278 | what hearing again about a known address does to its statistics and nothing else |
| AddrMan.AddrMan.PlaceEntry | src/addrman.cpp:293-315 | an entry gets the cell its source selects, or is dropped if it has no other and the owner keeps it |
| AddrMan.AddrMan.Attempt | src/addrman.cpp:317-337 | changes only the statistics of the address tried |
| AddrMan.AddrMan.Connected | src/addrman.cpp:485-503 | changes only the time of the address connected |
| AddrMan.AddrMan.SetServices | src/addrman.cpp:505-521 | changes only the services of the address |
| AddrMan.AddrMan.GetAddr | src/addrman.cpp:464-483 | returns distinct, sound, known addresses within both limits, and all sound ones if it stays below the limits |
| AddrCheck.ScanInfo | src/addrman.cpp:395-424 | the first pass of the self check fails exactly for a record with impossible times |
| AddrCheck.ScanTried | src/addrman.cpp:426-438 | the pass over the tried table meets every tried id exactly once |
| AddrCheck.ScanNew | src/addrman.cpp:440-456 | the pass over the new table meets every entry as often as its reference count says |
| AddrCheck.Check | src/addrman.cpp:387-461 | on a consistent manager the self check passes exactly if all times are sane and the key is not null |
| AddrRuns.GoodTheorem | src/addrman.cpp:197-247 | a good connection loses at most one address and no tried one, makes exactly the address with that port tried, and sets its statistics and nobody else's |
| AddrRuns.AddTheorem | src/addrman.cpp:249-315 | hearing about an address loses at most one other address, never a tried one, and never the one heard about if it was known |
| AddrRuns.PlaceCost | src/addrman.cpp:293-315 | placing an entry drops at most one entry, and itself only if it had no reference |
| AddrRuns.ClearedInUse | src/addrman.h:453-472 | a new manager that hears of one address and is cleared describes no view any more |
| AddrRuns.AddedInVain | src/addrman.cpp:249-315 | two addresses of the same cell, added to a new manager: both are reported as added, and the second is not there |
| AddrRuns.AddStoresIff | src/addrman.cpp:286-315 | a new address is stored exactly if its cell is free or held by a terrible entry or one with other references |
| AddrRuns.GoodTimes | src/addrman.cpp:215-218 | positive times keep all times sane |
| AddrRuns.AddTimes | src/addrman.cpp:258-291 | hearing about addresses keeps all times sane |
| AddrRuns.Perform | src/addrman.cpp:197-521 | every public operation keeps the manager consistent and makes of the view what its description says, for every random outcome |
| AddrRuns.Run | src/addrman.cpp:387-461 | any run goes through the views the operations describe; with positive times and a key that is not null the self check reports no error |
| AddrSpread.TriedBucketsPerGroup | src/addrman.cpp:12-17 | an address range selects at most 8 of the 256 tried buckets |
| AddrSpread.NewBucketsPerSourceGroup | src/addrman.cpp:19-25 | the range of a source selects at most 64 of the 1024 new buckets |
| AddrSpread.SameRangeSameBucket | src/addrman.cpp:19-25 | from one source range, all addresses of a range go to the same new bucket |
| AddrSpread.TriedBucketDepends | src/addrman.cpp:12-17 | the tried bucket depends on address, port and key |
| AddrSpread.TriedBucketDependsOnGroup | src/addrman.cpp:12-17 | and on the range of the address |
| AddrSpread.NewBucketDepends | src/addrman.cpp:19-25 | the new bucket depends on the range of the address and on the key |
| AddrSpread.NewBucketDependsOnSource | src/addrman.cpp:19-25 | and on the range of the source |
| AddrSpread.PositionDepends | src/addrman.cpp:27-31 | the position depends on key, table, bucket, address and port |
| AddrSpread.EveryTriedCell | src/addrman.cpp:12-31 | every position of the 256 tried buckets can be the one an address selects |
| AddrSpread.EveryNewCell | src/addrman.cpp:19-31 | so can every position of the 1024 new buckets |
| AddrSpread.TriedPerGroup | src/addrman.h:112-137 | in every consistent manager the tried addresses of one range take at most 512 of the 16384 cells |
| AddrSpread.StepConfined | src/addrman.cpp:249-315 | no operation brings an address into a bucket that no source range selects |
| AddrSpread.RunConfined | src/addrman.cpp:249-315 | nor does any run |
| AddrSpread.RunFew | src/addrman.h:112-137 | over any run, sources from k ranges fill at most 4096 k of the 65536 new cells, and each range has at most 512 tried addresses |
| AddrQuality.Aging | src/addrman.cpp:33-51 | an address that is given up stays so as time passes, unless its time lies in the future |
| AddrQuality.MoreFailures | src/addrman.cpp:33-51 | and however many more failures it has |
| AddrQuality.Unseen | src/addrman.cpp:41-42 | one never tried is given up exactly if it was not seen for 30 days |
| AddrQuality.FromTheFuture | src/addrman.cpp:38-39 | or exactly if it claims to be seen more than ten minutes from now |
| AddrQuality.NeverWorked | src/addrman.cpp:44-45 | one seen lately that never worked is given up exactly after three failures |
| AddrQuality.WorkedBefore | src/addrman.cpp:47-48 | one that worked before, exactly after ten failures if that was more than a week ago |
| AddrQuality.TriedJustNow | src/addrman.cpp:35-36 | and none within a minute after it was tried |
| AddrQuality.CountedIff | src/addrman.cpp:332-336 | a failure is counted exactly if asked for and the last counted one is older than the last good connection |
| AddrQuality.OneFailure | src/addrman.cpp:332-336 | so between two good connections an address gets one failure at most |
| AddrQuality.SeenConnected | src/addrman.cpp:499-502 | a connected address counts as seen within twenty minutes, and its time is left alone exactly if it did before |
| AddrQuality.OthersUntouched | src/addrman.cpp:317-521 | attempts, connections and services touch only the exact address and port |
| AddrQuality.HeardTime | src/addrman.cpp:259-266 | hearing about an address never makes it look older, nor newer than the peer says less the penalty, and at most an hour or a day behind that |
| AddrQuality.FirstTime | src/addrman.cpp:286-288 | what a new address starts with |
| AddrQuality.HeardAgain | src/addrman.cpp:258-285 | a known address gets at most one more reference, never a ninth, and only for a newer time; otherwise nothing but its statistics changes |
| AddrQuality.OnlyTerribleForgotten | src/addrman.cpp:293-309 | hearing about addresses makes the manager forget only addresses that are to be given up |
| AddrQuality.OnlyTerribleDisplaced | src/addrman.cpp:293-309 | an address that has a reference already takes another cell only from one that is to be given up |
| AddrQuality.FailuresBounded | src/addrman.cpp:317-337 | over any run no address has more failures than there were good connections, and one: while nothing can be reached none suffers |
| AddrCodec.SaveNews | src/addrman.h:306-316 | writes every referenced entry once and numbers them in that order |
| AddrCodec.SaveTried | src/addrman.h:317-325 | writes every tried entry once |
| AddrCodec.SaveRow | src/addrman.h:326-339 | writes the numbers of exactly the entries in a bucket |
| AddrCodec.Serialize | src/addrman.h:292-340 | writes a stream that describes exactly the view |
| AddrCodec.Flipped | src/addrman.h:304-304 | the number of buckets is written with just bit 30 changed, which undoes itself |
| AddrStream.StreamRead | src/addrman.h:343-439 | what was saved is read back item by item |
| AddrStream.RecordsCount | src/addrman.h:372-374 | a list of records is as long as the header says, and empty for a negative count |
| AddrLoad.StoredIff | src/addrman.h:372-409 | of tried records with the same cell exactly the first is kept; so it is with new records of a stream of another version or bucket count |
| AddrRaw.NewsStage | src/addrman.h:372-388 | for every stream, also one that repeats an address: after any number of new records ids are given out in order, references are counted right and an address names the last of its records |
| AddrRaw.TryTidy | src/addrman.h:394-408 | storing a tried record keeps the tables right by id |
| AddrRaw.LinkTidy | src/addrman.h:378-387 | a reference that is counted goes to the record's own cell, and the count stays right |
| AddrRaw.FilledStage | src/addrman.h:372-428 | the same after all records and references |
| AddrRaw.FilledOrdered | src/addrman.h:389-428 | a negative count of new records gives negative ids, but the random order is right all the same |
| AddrRaw.PrunedIds | src/addrman.h:430-440 | dropping a record forgets its address whoever else has it, so ids and addresses match exactly if records that share an address are all dropped |
| AddrRaw.ViewIff | src/addrman.h:183-208 | indexes that are right by id describe a view exactly if ids and addresses match |
| AddrRaw.ViewUnique | src/addrman.h:183-208 | the indexes describe at most one view |
| AddrRaw.FilledRep | src/addrman.h:372-428 | if no address repeats, the indexes describe what the stream says |
| AddrRaw.PrunedRep | src/addrman.h:430-440 | exactly the new entries without a reference are dropped |
| AddrRebuild.StoreNew | src/addrman.h:373-387 | a new record gets the cell its own source selects if the references cannot be used and that cell is free |
| AddrRebuild.ReadNews | src/addrman.h:372-388 | the new records are read one by one; a record is there, blank, before it is read |
| AddrRebuild.StoreTried | src/addrman.h:394-408 | a tried record is stored if its cell is free and lost otherwise |
| AddrRebuild.ReadTrieds | src/addrman.h:391-410 | the tried records are read one by one and the losses counted exactly |
| AddrRebuild.StoreRef | src/addrman.h:420-425 | a reference counts exactly if its cell is free and the record has fewer than eight |
| AddrRebuild.ReadRow | src/addrman.h:416-427 | the references of one bucket are read one by one; numbers that name no new record are passed over |
| AddrRebuild.ReadTable | src/addrman.h:412-428 | the references are read even if they cannot be used |
| AddrRebuild.Prune | src/addrman.h:430-440 | exactly the new records without a reference are dropped, with the count kept right |
| AddrRebuild.SoundIff | src/addrman.h:342-446 | after any stream that can be read the manager is consistent exactly if its counts are not negative and records that share an address all got no reference |
| AddrRebuild.Unserialize | src/addrman.h:342-446 | any stream is refused exactly if it cannot be read; one that is read leaves the indexes it describes, consistent exactly if it is sound, and showing what it says if no address repeats; a refused one leaves both maps empty exactly if reading fails before a first record is there |
| AddrRebuild.Read | src/net.cpp:2442-2463 | after reading, or clearing what a refused stream left, the manager is consistent exactly if the stream was accepted and sound, or was refused before a first record |
| AddrRebuild.ReadTruncated | src/net.cpp:2442-2463 | a stream that ends after announcing a record is refused and leaves an inconsistent manager |
| AddrRebuild.ReadRepeated | src/addrman.h:342-446 | a stream with the same new record twice is accepted and leaves an inconsistent manager |
| AddrLoad.SavedLoaded | src/addrman.h:292-446 | for a saved stream that is the saved view, with memory-only fields reset |
| AddrRebuild.SaveAndLoad | src/addrman.h:292-446 | writing and reading loses no entry and no reference, for every consistent manager |
| CheckQueue.TakeBatch | src/checkqueue.h:111-117 | a batch is the last checks of the queue in reverse order, and the rest stays |
| CheckQueue.FairShare | src/checkqueue.h:105-110 | a batch is the largest within the limits that leaves every thread, idle ones and one more included, its share |
| CheckQueue.ExecuteBatch | src/checkqueue.h:121-125 | a batch succeeds exactly if the verdict was good and each check holds up to the first failure |
| CheckQueue.InitialInv | src/checkqueue.h:130-131 | the invariant holds for a new queue |
| CheckQueue.StepKeeps | src/checkqueue.h:69-158 | every atomic step of any thread keeps it: checks to do are those queued plus those held, and threads not idle are those holding a batch |
| CheckQueue.RunKeeps | src/checkqueue.h:69-158 | so does every interleaving |
| CheckQueue.ReachableInv | src/checkqueue.h:69-168 | it holds in every reachable state, for any number of workers |
| CheckQueue.WaitVerdict | src/checkqueue.h:90-100 | waiting returns true exactly if all checks added since the last wait evaluate to true, and leaves the queue idle |
| CheckQueue.IdleIff | src/checkqueue.h:164-168 | the idle test holds exactly if nothing is to do and nothing has failed |
| CheckQueue.IdleAfterWait | src/checkqueue.h:184-191 | the controller's assertion cannot fail after a wait |
| CheckQueue.NoLostWakeup | src/checkqueue.h:80-104 | a master that waits without a notification has work pending with some worker |
| CheckQueue.AddHelped | src/checkqueue.h:146-158 | adding a check wakes a sleeping worker if there is one, and adding several wakes all |
| CheckQueue.RunHelped | src/checkqueue.h:69-158 | in every state of every interleaving with work in the queue, the workers do not all sleep |
| CheckQueue.Progress | src/checkqueue.h:69-127 | as long as the master is inside, some thread can really move |
| CheckQueue.PotentialDrops | src/checkqueue.h:69-127 | every real move lowers a bound |
| CheckQueue.RunBounded | src/checkqueue.h:69-127 | so runs without spurious wake-ups are finite |
| CheckQueue.StoppedMeansReturned | src/checkqueue.h:139-143 | and when nothing can move any more the wait has returned |
| CoinTypes.CleanedFacts | src/coins.h:113-119 | trimming never changes which outputs are available, and a trimmed record is pruned exactly if it is empty |
| CoinTypes.Cleanup | src/coins.h:113-119 | removes exactly the spent outputs at the end |
| CoinTypes.Spend | src/coins.cpp:35-42 | succeeds exactly for an available output and removes that one only |
| CoinsCache.LayerPut | src/coins.cpp:99-133 | putting an entry shows its record, and keeps the layer exactly if the flags of the entry are right |
| CoinsCache.LayerErase | src/coins.cpp:285-302 | erasing an entry makes the record absent exactly if there is none below |
| CoinsCache.LayerDrop | src/coins.cpp:220-227 | dropping an entry without flags is invisible |
| CoinsCache.WriteOne | src/coins.cpp:168-211 | writing one entry of a batch shows exactly that record afterwards |
| CoinsCache.CoinsView.Database | src/txdb.cpp:49-70 | a database is a plain map |
| CoinsCache.CoinsView.constructor | src/coins.cpp:61 | a new cache shows what its base shows |
| CoinsCache.CoinsView.FetchCoins | src/coins.cpp:72-88 | finds a record exactly if some view below has one, changing nothing that is seen |
| CoinsCache.CoinsView.Fill | src/coins.cpp:79-87 | caching a record from the base keeps the view and the usage exact |
| CoinsCache.CoinsView.GetCoins | src/coins.cpp:90-97 | returns what the view shows |
| CoinsCache.CoinsView.HaveCoins | src/coins.cpp:144-151 | holds exactly for a record that is not pruned, or is lent out with only spent outputs |
| CoinsCache.CoinsView.ReadLent | src/coins.cpp:90-97 | while a record is lent out readers see it as it is so far, and all others as before |
| CoinsCache.CoinsView.Edit | src/coins.h:382-383 | what the user of a modifier leaves in the record is what the view shows, with flags and accounting as right as before |
| CoinsCache.CoinsView.ModifyCoins | src/coins.cpp:99-118 | lends out what the view shows, marks it dirty and keeps the flag rules |
| CoinsCache.CoinsView.ModifyNewCoins | src/coins.cpp:120-133 | lends out an empty record; the cache stays consistent exactly if it is a coinbase or the base has no unspent outputs of it, and the usage is off by exactly what a cached entry used before |
| CoinsCache.CoinsView.Release | src/coins.cpp:285-302 | the modifier's changes become visible, trimmed, with the usage as exact as before; a wiped record is really gone exactly unless a fresh entry hid one of the base |
| CoinsCache.CoinsView.Uncache | src/coins.cpp:220-227 | removes exactly an entry without flags, invisibly |
| CoinsCache.CoinsView.GetBestBlock | src/coins.cpp:158-162 | the nearest best block that is not null |
| CoinsCache.CoinsView.SetBestBlock | src/coins.cpp:164-166 | sets it, a null block meaning the base's |
| CoinsCache.CoinsView.WriteEntry | src/coins.cpp:170-208 | one dirty entry of a batch |
| CoinsCache.CoinsView.BatchWrite | src/coins.cpp:168-211 | afterwards the view shows the batch over what it showed, for caches and the database; a database that fails keeps everything |
| CoinsCache.CoinsView.Flush | src/coins.cpp:213-218 | the base then shows what this view shows, the cache is empty and the usage exact; and exactly when the base keeps its own best block; if the database fails, the changes are lost, but not the best block and the accounting |
| CoinsRuns.Perform | src/test/coins_tests.cpp:92-201 | any operation on any stack does to every layer what it does to a stack of plain maps, and puts the accounted memory off by what a creation met and nothing else |
| CoinsRuns.Run | src/test/coins_tests.cpp:92-201 | over any run of reads and flushes at any height, modifications, creations of what the map just below lacks, new and removed layers, every layer is its plain map, all answers are those of the maps, and every layer's accounting is off by an exactly given amount |
| CoinsRuns.ExactIff | src/test/coins_tests.cpp:74-83 | all layers are accounted exactly at all times if and only if no creation met a cached entry that used memory |
| CoinsRuns.MetIsShown | src/coins.cpp:124-133 | a creation of what the map just below lacks meets the record that the top shows, or nothing that uses memory |
| CoinsRuns.DuplicateCoinbaseDrifts | src/coins.cpp:124-133 | two coinbases with the same id put the accounting off by the size of the first |
| CoinsRuns.WipedRecordReturns | src/coins.h:438-447 | creating what the base still has and wiping it again brings the base's record back |
| CoinsRuns.FlushForgetsBestBlock | src/coins.cpp:158-218 | flushing a cache that never asked for the best block makes its base forget its own |
| Mempool.CachedExact | src/miner.h:35-50 | the sums cached with a transaction are exact, as long as no ancestor is in the block |
| Mempool.AddedTracked | src/miner.cpp:338-360 | after adding transactions every entry of the side table still covers its missing ancestors, and is exact unless it failed before |
| Mempool.FeesExactIff | src/miner.cpp:338-360 | an update adds to an entry's fee error the adjustments of the ancestors taken out, except the first one if the entry is new, so the total is right afterwards exactly if these cancel |
| Mempool.ExactTaken | src/miner.cpp:338-360 | over any run the fees of an entry that never failed are off by the adjustments of its ancestors in the block except one |
| Mempool.ExactFees | src/miner.cpp:338-360 | so they are right if no fee is adjusted, or only one ancestor is in the block |
| Miner.FeesOff | src/miner.cpp:338-360 | two parents with fees raised by 1000 and their child: once both are in the block the child counts with 1000 too much |
| Mempool.NoWrap | src/miner.h:119-131 | a tracked size never goes below zero, so the unsigned subtraction does not wrap |
| Miner.BlockAssembler.Limits | src/miner.cpp:79-102 | both limits lie within the consensus limits, are those asked for if these do, and follow from each other or are the defaults if not asked for |
| Miner.BlockAssembler.constructor | src/miner.cpp:76-105 | an assembler with these limits, which counts bytes exactly if they are limited |
| Miner.BlockAssembler.ResetBlock | src/miner.cpp:107-123 | an empty block with the space of the coinbase reserved |
| Miner.BlockAssembler.AddToBlock | src/miner.cpp:312-336 | adding a transaction whose ancestors are in keeps the block closed, ordered, free of duplicates and its counters exact |
| Miner.BlockAssembler.IsStillDependent | src/miner.cpp:202-211 | looking at the parents decides whether any ancestor is missing |
| Miner.BlockAssembler.TestPackage | src/miner.cpp:226-234 | passes exactly if weight and signature operations stay below their limits |
| Miner.BlockAssembler.TestPackageTransactions | src/miner.cpp:236-258 | passes exactly if all are final, witness rules hold and the size, if limited, stays below its limit |
| Miner.BlockAssembler.TestForBlock | src/miner.cpp:260-310 | passes exactly if the resources stay below their limits and the transaction is final, and gives up only near a limit or after fifty attempts |
| Miner.BlockAssembler.UpdatePackagesForAdded | src/miner.cpp:338-360 | the side table loses exactly the added transactions' share, entry by entry, but for fee adjustments |
| Miner.BlockAssembler.SortForBlock | src/miner.cpp:379-387 | a permutation of the package by number of ancestors |
| Miner.BlockAssembler.PackageOrder | src/miner.cpp:379-387 | which puts every missing ancestor before its descendant |
| Miner.BlockAssembler.AddPackage | src/miner.cpp:495-503 | adds the whole package in a valid order with exact counters |
| Miner.BlockAssembler.NextCandidate | src/miner.cpp:416-460 | no entry of the side table and no pool entry still ahead pays more for its size than the candidate; its sums cover its missing ancestors, and are exact unless it failed before |
| Miner.BlockAssembler.PickModified | src/miner.cpp:433-452 | an entry of the side table that no other one is better than |
| Mempool.CandidateFacts | src/miner.cpp:416-460 | a candidate's sums of size and signature operations never underestimate, and are exact unless it failed before |
| Mempool.CandidateFees | src/miner.cpp:416-460 | so are its fees if none is adjusted or only one ancestor is in the block |
| Mempool.FailTracked | src/miner.cpp:467-476 | forgetting a failed entry is sound even if it comes back with stale sums |
| Miner.BlockAssembler.TryPackage | src/miner.cpp:467-506 | a package is added, whole, exactly if it fits by its sums and all its members are allowed; the block stays sound and within its limits |
| Miner.BlockAssembler.AddPackageTxs | src/miner.cpp:400-508 | the selection terminates and keeps the block sound; its history consists of best candidates, each added, refused or unpaid as its sums say, and nothing is left out that was not refused, unless fees became too low |
| Selection.CandidateBest | src/miner.cpp:413-452 | whatever is outside the block and was not refused has sums that pay no more for their size than the candidate's |
| Selection.SettledLasts | src/miner.cpp:462-487 | a refusal stays right while nothing the transaction depends on is added |
| Selection.SelectingAdded | src/miner.cpp:495-507 | adding a package keeps account of everything outside the block: in the side table, refused, or still ahead |
| Selection.SelectingRefused | src/miner.cpp:462-487 | so does refusing one |
| Selection.SelectingUnpaid | src/miner.cpp:457-460 | and a candidate that does not pay ends the selection, as everything else pays less |
| Selection.LeftOut | src/miner.cpp:400-508 | every transaction left out was refused by sums that would be refused again, or pays less for its size than the minimum rate |
| Selection.Grown | src/miner.cpp:400-508 | the block grows by final transactions that the witness rule allows, and stays closed |
| Selection.AddedPays | src/miner.cpp:457-460 | without fee adjustments every package added pays the minimum fee for its true size |
| Selection.TakesAll | src/miner.cpp:400-508 | if the whole pool is allowed and fits, and every package pays, all of it goes into the block |
| FeeRates.NoBetterTransitive | src/miner.h:75-86 | being no better is transitive, so the best of a table is well defined |
| FeeRates.NoBetterBelow | src/miner.cpp:457-460 | what is no better than a package below the minimum rate is below it too |
| FeeRates.UnpaidBelow | src/amount.cpp:23-38 | what does not pay the minimum fee pays less than the rate |
| FeeRates.FeeBounds | src/amount.cpp:23-38 | the fee is the rate rounded down, but never nothing |
| FeeRates.FeeCases | src/test/amount_tests.cpp:16-47 | the repository's own cases |
| Miner.BlockAssembler.FillByPriority | src/miner.cpp:543-588 | each transaction was one of highest priority among those that could go in; the filling goes on as long as space and priority ask for and stops only then, with nothing left to go in, or close to a limit; its assertion never fires |
| Miner.BlockAssembler.AddPriorityTxs | src/miner.cpp:510-590 | the same with the operator's size; the size accounting is restored and the limits kept |
| Priority.AwaitedHighest | src/miner.cpp:544-549 | the first of the queue has the highest priority of all that could go into the block |
| Priority.AwaitedAdded | src/miner.cpp:577-586 | what waits for a parent that is still missing goes on waiting, and nothing is lost from the queue |
| Priority.FillingEnd | src/miner.cpp:543-543 | an empty queue means that nothing more could go in |
| Priority.CoinDay | src/txmempool.h:27-37 | free is what has more than one coin, a day old, for every 250 bytes |
| Miner.BlockAssembler.CreateNewBlock | src/miner.cpp:125-165 | a whole run gives a block without duplicates, parents before children, only of allowed transactions, within the true limits; its first part follows from priority and the rest from fees, and whatever is left out was refused or pays less than the minimum rate |
| MerkleTree.NodeExists | src/merkleblock.h:66-68 | a node exists exactly if its first leaf does |
| MerkleTree.WidthStep | src/merkleblock.h:66-68 | each level has half as many nodes, rounded up |
| MerkleTree.CalcHashIsLevel | src/merkleblock.cpp:63-78 | the recursive hash of every node is that of the level by level construction |
| MerkleTree.ParseSound | src/merkleblock.cpp:98-134 | what is read off is exactly the encoding of a tree of the right shape |
| MerkleTree.ParseComplete | src/merkleblock.cpp:98-134 | and every encoding of such a tree is read, whatever follows |
| MerkleTree.Authentic | src/merkleblock.cpp:98-134 | with an injective pair hash a tree with the block's root reports only the block's transactions, at their places |
| MerkleTree.BitCount | src/merkleblock.h:47 | there are exactly twice as many bits as hashes, less one, plus one per node with a single child |
| PartialMerkle.SinglesCounted | src/merkleblock.cpp:80-97 | nodes with a single child occur only on the way to the last leaf, at the heights that the number of transactions and the mask say |
| PartialMerkle.BitBoundIff | src/merkleblock.h:47 | the documented bound on the bits holds exactly if nothing is selected below the last parent of a level with an odd number of nodes |
| PartialMerkle.SizeBoundIff | src/merkleblock.h:31-49 | exactly when the documented bound on the encoded size holds |
| PartialMerkle.OneByteTooMany | src/merkleblock.h:31-49 | a block of 1012 transactions, all selected, takes one byte more than that |
| PartialMerkle.FourBitsForTwoHashes | src/merkleblock.h:47 | with three transactions and the last one selected the documented bound on the bits fails |
| PartialMerkle.TreeOfFacts | src/merkleblock.cpp:80-96 | the tree for a mask has the full tree's root, reports exactly the selected ids in order, and has no more hashes than leaves |
| PartialMerkle.HashBound | src/merkleblock.h:36-40 | it has at most one hash plus one per selected id and level |
| PartialMerkle.TreeHeight | src/merkleblock.cpp:141-144 | the height at which one node is left |
| PartialMerkle.MaskIs | src/merkleblock.h:94-98 | the first flag of a byte is its lowest bit |
| PartialMerkle.PackBits | src/merkleblock.h:99-104 | bit p is bit p modulo 8 of byte p / 8, and padding is zero |
| PartialMerkle.UnpackBits | src/merkleblock.h:92-98 | reads exactly these bits |
| PartialMerkle.NoTwins | src/merkleblock.cpp:122-126 | if all siblings of the full tree differ the comparison of siblings never fails |
| PartialMerkle.AcceptsEncoding | src/merkleblock.cpp:152-183 | the padded encoding of a block's tree passes all checks exactly if the block is not too large and no compared siblings are equal |
| PartialMerkle.PartialMerkleTree.constructor | src/merkleblock.cpp:136-148 | holds the encoding of the tree for the mask |
| PartialMerkle.PartialMerkleTree.Unserialize | src/merkleblock.h:88-98 | takes over what was sent |
| PartialMerkle.PartialMerkleTree.Serialize | src/merkleblock.h:88-105 | sends count, hashes and packed bits |
| PartialMerkle.PartialMerkleTree.ParentOfMatch | src/merkleblock.cpp:81-84 | whether a selected leaf lies below the node |
| PartialMerkle.PartialMerkleTree.TraverseAndBuild | src/merkleblock.cpp:80-96 | appends exactly the encoding of the node's tree |
| PartialMerkle.PartialMerkleTree.TraverseAndExtract | src/merkleblock.cpp:98-134 | returns root and matches of the tree that was read, and marks the data bad exactly if there is none or it has equal siblings |
| PartialMerkle.PartialMerkleTree.ExtractChildren | src/merkleblock.cpp:118-133 | the inner node case of it |
| PartialMerkle.PartialMerkleTree.ExtractMatches | src/merkleblock.cpp:152-183 | answers root and matches exactly if all checks pass, else null; with an injective hash no id outside the block can be reported under its root |
| PartialMerkle.Unforgeable | src/merkleblock.cpp:152-183 | for arbitrary bits and hashes |
| PartialMerkle.RoundTrip | src/merkleblock.cpp:63-183 | building, packing, unpacking and extracting returns the Merkle root and exactly the selected ids and places, or null exactly if the block is too large or compared siblings are equal |
| RollingBloom.WipeWords | src/bloom.cpp:263-266 | the masked wipe clears exactly the cells of one generation |
| RollingBloom.PutWords | src/bloom.cpp:275-277 | writing a cell changes that cell only |
| RollingBloom.LiveNext | src/bloom.cpp:254-258 | reusing the oldest generation number leaves the two younger ones alone |
| RollingBloom.SameCellIff | src/bloom.cpp:272-277 | two hashes share a cell exactly if they agree in their last six bits and in the pair of words their other bits select |
| RollingBloom.Distinguish | src/bloom.cpp:251-299 | a filter with one hash function that holds one key finds another exactly if their hashes, small enough for the filter, differ at most in bit 6 |
| RollingBloom.Rolled | src/bloom.cpp:253-268 | after a new generation begins exactly the cells of the last two full ones remain |
| RollingBloom.Recorded | src/bloom.cpp:271-278 | after marking, exactly the cells of remembered keys are set |
| RollingBloom.RollingBloomFilter.constructor | src/bloom.cpp:219-244 | two generations hold at least the promised number of keys and hardly more, over the given number of word pairs |
| RollingBloom.RollingBloomFilter.Reset | src/bloom.cpp:307-315 | an empty filter |
| RollingBloom.RollingBloomFilter.Wipe | src/bloom.cpp:259-267 | clears every cell of a generation and no other |
| RollingBloom.RollingBloomFilter.Mark | src/bloom.cpp:272-277 | marks one cell with the current generation |
| RollingBloom.RollingBloomFilter.Roll | src/bloom.cpp:253-268 | begins a generation, keeping the invariant |
| RollingBloom.RollingBloomFilter.Insert | src/bloom.cpp:251-279 | one more key is logged and the invariant kept |
| RollingBloom.RollingBloomFilter.Contains | src/bloom.cpp:287-299 | finds a key exactly if each of its cells is shared with one of the keys of the current and the last two generations; hence always these keys |
| RollingBloom.Recall | src/bloom.h:113-114 | over any run the last nElements keys inserted are found |
| CompactBlock.EncodeIndexes | src/blockencodings.h:63-66 | each index is written as the distance from the one before, modulo 2^64 |
| CompactBlock.DecodeIndexes | src/blockencodings.h:43-61 | accepts exactly the lists that stand for 16-bit indexes, and returns these |
| CompactBlock.RequestRoundTrip | src/blockencodings.h:38-68 | a list survives exactly if it is strictly increasing |
| CompactBlock.RequestCanonical | src/blockencodings.h:55-61 | an accepted request is written back as it came exactly if no proper part of its differences reaches just past position 65535 |
| CompactBlock.OffsetWraps | src/blockencodings.h:55-61 | such a request exists |
| CompactBlock.MatchMeans | src/blockencodings.cpp:106-133 | a place gets a pool transaction exactly if its short id has a single match |
| CompactBlock.MatchedNext | src/blockencodings.cpp:109-132 | the count of matches goes up by one on a first match, down by one on a second and stays on further ones |
| CompactBlock.CountDistinct | src/blockencodings.cpp:101-104 | as many keys as short ids means no collision |
| ShortIdIndex.PlacedNext | src/blockencodings.cpp:60-75 | each prefilled transaction goes to an empty place in range, after the ones before |
| PoolScan.FilledNext | src/blockencodings.cpp:109-126 | what one pool entry changes, for every announcement |
| PoolScan.MatchAtMeans | src/blockencodings.cpp:112-124 | a place holds a match exactly if one entry is sent to it |
| PoolScan.EntryCounts | src/blockencodings.cpp:112-124 | the count of matches moves with the state of the place |
| PoolScan.FilledScanned | src/blockencodings.cpp:106-133 | as long as no short id is met whose place does not fit 16 bits, every free place holds the pool's only match for its own short id |
| PoolScan.ScannedIff | src/blockencodings.cpp:106-133 | in general this holds exactly if each such short id is met twice and nothing belongs at the place used instead |
| CompactBlock.MatchedBound | src/blockencodings.cpp:129-133 | there are never more matches than short ids, and as many exactly if every short id has one match |
| ShortIdIndex.EndlessIff | src/blockencodings.cpp:82-85 | the search with a 16-bit offset has no end exactly if every offset leads to a filled place |
| ShortIdIndex.PackedPrefill | src/blockencodings.cpp:60-85 | more than 65535 prefilled transactions fill all places that an offset can reach |
| BlockReceiver.Misplaced | src/blockencodings.cpp:80-133 | with 65537 short ids a pool entry ends up at the first place instead of the last |
| BlockReceiver.AllPrefilledReadable | src/blockencodings.cpp:50-76 | there is such an announcement that passes all checks before the search |
| BlockReceiver.PartiallyDownloadedBlock.Search | src/blockencodings.cpp:84-85 | finds the next empty place, or that the search has no end |
| ShortIdIndex.InRange | src/blockencodings.cpp:84-87 | the search for an empty place ends within range, because there are as many empty places as short ids |
| BlockReceiver.PartiallyDownloadedBlock.constructor | src/blockencodings.h:194-201 | nothing received yet |
| BlockReceiver.PartiallyDownloadedBlock.Prefill | src/blockencodings.cpp:57-76 | succeeds exactly if every prefilled transaction is not null and its place is possible |
| ShortIdIndex.CrowdedNext | src/blockencodings.cpp:89-101 | looking at the bucket of each new id finds a crowded bucket exactly if there is one |
| BlockReceiver.PartiallyDownloadedBlock.IndexShortIds | src/blockencodings.cpp:78-104 | has no end exactly if there are short ids and more than 65535 prefilled transactions; otherwise gives the i-th short id the i-th empty place, never out of range, and fails exactly if a bucket is crowded or two ids are the same |
| BlockReceiver.PartiallyDownloadedBlock.MatchEntry | src/blockencodings.cpp:109-126 | one pool entry |
| BlockReceiver.PartiallyDownloadedBlock.ScanPool | src/blockencodings.cpp:106-133 | each place holds the only entry that the index sends there, of those looked at; as long as places fit 16 bits that is the only match for its short id, the count is exact, and all short ids are matched when the scan stops early |
| BlockReceiver.PartiallyDownloadedBlock.InitData | src/blockencodings.cpp:50-137 | has no end, is invalid, and fails, exactly for the listed reasons; when it succeeds every place holds its prefilled transaction, the only pool match or nothing, as far as the places met fit 16 bits |
| BlockReceiver.PartiallyDownloadedBlock.IsTxAvailable | src/blockencodings.cpp:139-143 | whether the place is filled |
| BlockReceiver.PartiallyDownloadedBlock.FillBlock | src/blockencodings.cpp:145-172 | fills the empty places in order, and is invalid exactly if the number of missing transactions differs |
| BlockRelay.Announce | src/blockencodings.cpp:20-30 | a message that describes the block: the coinbase in full and a short id for every other transaction |
| BlockRelay.MissingIndexes | src/main.cpp:5731-5734 | exactly the empty places, in increasing order |
| BlockRelay.Serve | src/main.cpp:5409-5417 | answers exactly if no index is beyond the block |
| BlockRelay.ReadRight | src/blockencodings.cpp:50-137 | for any message that describes a block, whichever transactions are prefilled, without collisions every filled place holds the block's own transaction |
| BlockRelay.Found | src/blockencodings.cpp:88-137 | a transaction whose short id is that of exactly one pool entry is found |
| BlockRelay.CompletedRight | src/blockencodings.cpp:145-160 | the block's own transactions at the empty places complete it |
| BlockRelay.Exchange | src/blockencodings.cpp:50-172 | for any such message, reading, requesting, serving and filling gives back exactly the original block, unless a bucket is crowded or short ids repeat; only what is neither prefilled nor held by exactly one pool entry is asked for |
| BlockRelay.Relay | src/blockencodings.cpp:20-172 | so it is for the announcement that the node sends, with short ids of the chosen kind of transaction id |
| SkipList.LowestOneCleared | src/chain.cpp:64-65 | exactly the lowest one bit is cleared |
| SkipList.OddNext | src/chain.cpp:85-96 | from an odd height the skip link is followed unless it leads too far |
| SkipList.PrevSkip | src/chain.cpp:67-76 | where the skip link of the height before an even one leads |
| SkipList.Descend | src/chain.cpp:67-102 | less than 2^j below a multiple of 2^j the walk takes at most (j^2 + 7 j) / 4 steps |
| SkipList.FewHops | src/chain.cpp:67-102 | the walk along skip links takes a number of steps that is quadratic in the number of binary digits |
| Chain.BlockIndex.constructor | src/main.cpp:3250-3275 | a new block extends its predecessor's path |
| Chain.BlockIndex.GetAncestor | src/chain.cpp:78-102 | returns the same block as walking back one by one, and none outside the range, whichever skip links exist; if all do, from a height of l binary digits in at most (l^2 + 15 l + 12) / 4 steps |
| Chain.BlockIndex.BuildSkip | src/chain.cpp:109-113 | the skip link is the ancestor at the skip height |
| Chain.AddBlock | src/main.cpp:3259-3273 | adding a block keeps every skip link of the tree right and adds up its work |
| Chain.BlockTree.AddToBlockIndex | src/main.cpp:3250-3281 | a known header is returned as it is; a new one is linked to its predecessor, its work summed up along its path, and it is the best header exactly if it has more work than the best so far; the tree stays one exactly unless a new header names itself as predecessor |
| Chain.ActiveChain.constructor | src/chain.h:407-411 | an empty chain |
| Chain.ActiveChain.ContainsPath | src/chain.h:436-439 | a block is in the chain exactly if the chain begins with its path |
| Chain.ActiveChain.SetTip | src/chain.cpp:13-23 | despite the early stop the chain is the whole path to the new tip |
| Chain.WriteBack | src/chain.cpp:19-22 | overwriting up to the first agreeing entry gives the whole path |
| Chain.ActiveChain.FindFork | src/chain.cpp:53-62 | the highest block both in the chain and among the ancestors, or none if there is none |
| Chain.ActiveChain.GetLocator | src/chain.cpp:25-51 | ancestors at exactly prescribed, strictly descending heights from the start to genesis, at most 12 + log2(h + 1) of them |
| Digits.RatioBound | src/base58.cpp:33-77 | a^n <= b^k follows from a^p <= b^q whenever k / n >= q / p |
| Base58.FiguresAndCapitals | src/base58.cpp:18-19 | the alphabet in order, up to Z, |
| Base58.SmallLetters | src/base58.cpp:18-19 | and from a on |
| Base58.EncodeFits | src/base58.cpp:77 | the buffer for encoding is large enough for every input |
| Base58.DecodeFits | src/base58.cpp:33 | so is the buffer for decoding |
| Base58.SymbolDigit | src/base58.cpp:18-19 | every digit is recovered from its symbol |
| Base58.DigitSymbol | src/base58.cpp:18-19 | and every symbol from its digit |
| Base58.MultiplyAdd | src/base58.cpp:81-91 | the carry loop with its length shortcut computes the full product and sum, and nothing is carried out of the buffer |
| Base58.EncodeBase58 | src/base58.cpp:67-105 | as many leading ones as zero bytes, then the digits of the same number |
| Base58.ReadDigits | src/base58.cpp:32-49 | the buffer holds the number of the symbols read; it stops at the first space, the end or a bad character |
| Base58.DecodeBase58 | src/base58.cpp:21-65 | accepts exactly strings of symbols with spaces around them, and returns the bytes they stand for |
| Base58.EncodingUnique | src/base58.cpp:67-105 | a byte string has one encoding |
| Base58.DecodingUnique | src/base58.cpp:21-65 | a string stands for one byte string |
| Base58.ThereAndBack | src/base58.cpp:21-105 | decoding undoes encoding for all byte strings |
| Base58.BackAndThere | src/base58.cpp:21-105 | encoding what was decoded gives back every accepted string without the spaces around it |
| Base58.EncodeBase58Check | src/base58.cpp:117-124 | the encoding of the bytes with their checksum |
| Base58.DecodeBase58Check | src/base58.cpp:126-141 | accepts exactly the encodings of bytes with their checksum |
| BigUint.TotalFits | src/arith_uint256.cpp:56-79 | no step of the carry loops exceeds 64 bits, and the carry is a limb again |
| BigUint.Add | src/arith_uint256.h:135-145 | addition modulo 2^256, also of a number to itself |
| BigUint.MultiplySmall | src/arith_uint256.cpp:56-65 | multiplication by a limb modulo 2^256 |
| BigUint.MultiplyRow | src/arith_uint256.cpp:72-79 | one row of the long multiplication |
| BigUint.Multiply | src/arith_uint256.cpp:68-81 | multiplication modulo 2^256, except that a number multiplied by itself in place becomes zero |
| BigUint.Complement | src/arith_uint256.h:69-75 | 2^256 - 1 - x |
| BigUint.Increment | src/arith_uint256.h:173-180 | x + 1 modulo 2^256 |
| BigUint.Negate | src/arith_uint256.h:77-84 | -x modulo 2^256 |
| BigUint.Subtract | src/arith_uint256.h:147-151 | x - y modulo 2^256, exact if not negative |
| BigUint.CompareTo | src/arith_uint256.cpp:110-119 | the sign of the difference |
| BigShift.ShiftLeft | src/arith_uint256.cpp:22-36 | x * 2^shift modulo 2^256, for every shift |
| BigShift.ShiftRight | src/arith_uint256.cpp:39-53 | x / 2^shift, for every shift |
| BigShift.Bits | src/arith_uint256.cpp:172-184 | the number of bits of the value |
| BigDivide.LongDivide | src/arith_uint256.cpp:97-105 | the bit by bit loop ends with quotient and remainder |
| BigDivide.Divide | src/arith_uint256.cpp:84-107 | quotient and remainder for every divisor that is not zero, and failure exactly for zero |
| Compact.Truncates | src/arith_uint256.cpp:204-245 | reading back a compact form never exceeds the number and loses less than 1/32768 of it |
| Compact.Stable | src/arith_uint256.cpp:204-245 | writing what was read back changes nothing |
| Compact.SmallExact | src/arith_uint256.cpp:204-245 | numbers below 2^23 are kept exactly |
| Compact.LargeParts | src/arith_uint256.cpp:224-245 | larger ones keep at least sixteen leading bits |
| Compact.OverflowIff | src/arith_uint256.cpp:217-220 | the overflow test holds exactly if the value needs more than 256 bits |
| Target.SetCompact | src/arith_uint256.cpp:204-222 | the value modulo 2^256, the overflow flag exactly if it does not fit, the negative flag exactly for a negative value |
| Target.GetCompact | src/arith_uint256.cpp:224-245 | the compact form of the value; both assertions hold |
| Target.FromUint64 | src/arith_uint256.h:51-57 | the value |
| Target.GetLow64 | src/arith_uint256.h:245-249 | the value modulo 2^64 |
| Target.GetBlockProof | src/chain.cpp:115-128 | 2^256 / (target + 1), or zero exactly for a target that is zero, negative or too large |
| Target.WorkOf | src/chain.cpp:123-127 | computed without ever representing 2^256 |
| Target.CalculateNextWorkRequired | src/pow.cpp:52-75 | the compact form of the scaled target, in 256-bit arithmetic, capped at the limit; what that means is stated by the rows of Retarget |
| Target.RetargetScales | src/pow.cpp:56-75 | if the product fits, that is the old target times the clamped time over the time span, at most four times larger and never above the limit |
| Retarget.ClampedNearest | src/pow.cpp:57-63 | the time taken is replaced by the nearest one within a factor of four, and left alone within |
| Retarget.RetargetMonotone | src/pow.cpp:56-75 | blocks that took longer never make the target smaller |
| Retarget.RetargetRange | src/pow.cpp:56-75 | the target changes at most fourfold, and not at all for blocks in time |
| Retarget.UnconstrainedCase | src/test/pow_tests.cpp:19-30 | the repository's own cases: a plain adjustment, |
| Retarget.LimitCase | src/test/pow_tests.cpp:33-44 | one at the limit, |
| Retarget.FastBlocksCase | src/test/pow_tests.cpp:47-58 | one with fast blocks |
| Retarget.SlowBlocksCase | src/test/pow_tests.cpp:61-72 | and one with slow blocks |
| Compact.Cases | src/test/arith_uint256_tests.cpp:412-538 | the repository's own cases of compact forms |
| Target.RetargetIff | src/pow.cpp:56-75 | the new target is the scaled one exactly if the product fits, or even what is left of it after wrapping reaches the limit |
| Target.MainNetworkFits | src/chainparams.cpp:79-80 | with the main network's limit the product always fits |
| Target.TestNetworkWraps | src/chainparams.cpp:183-185 | with the test network's limit it need not, and slow blocks can then make the target far smaller |
| Target.TestNetworkIff | src/chainparams.cpp:183-185 | with that limit the new target is right exactly if the product fits |
| Target.CheckProofOfWork | src/pow.cpp:77-94 | holds exactly if the target is valid, within the limit and not below the hash |
| Difficulty.LastRegularBits | src/pow.cpp:34-37 | the last block that did not use the minimum difficulty |
| Difficulty.GetNextWorkRequired | src/pow.cpp:13-50 | the required difficulty in every case, and both assertions hold |
| DifficultyChain.SameInterval | src/pow.cpp:21-39 | in a chain without the minimum difficulty rule all blocks of an interval have the same difficulty |
| DifficultyChain.FirstOrMinimum | src/pow.cpp:25-37 | with it each block has that of the first block of its interval, or the minimum |
| DifficultyChain.FourfoldAtMost | src/pow.cpp:42-75 | from one interval to the next the target changes at most fourfold |
| DifficultyChain.OnTime | src/pow.cpp:42-49 | the time is measured one block short, so blocks just on time make the target smaller |
| VarInt.RoundTrip | src/serialize.h:343-372 | reading undoes writing for numbers of any size, whatever follows |
| VarInt.Canonical | src/serialize.h:360-372 | a number of any size has no second encoding |
| VarInt.ReadBack | src/serialize.h:343-372 | reading into a fixed width undoes writing for the numbers of that width |
| VarInt.CanonicalIff | src/serialize.h:360-372 | what was read is the encoding of the number returned exactly if the bytes stand for a number of the width |
| VarInt.SecondZero | src/serialize.h:360-372 | zero has a second encoding, of ten bytes, among the 64-bit integers |
| VarInt.SignedRoundTrip | src/serialize.h:343-372 | a signed number comes back exactly if it is not negative |
| VarInt.WriteVarInt | src/serialize.h:343-358 | the buffer of (w + 6) / 7 bytes is enough for every number of w bits; a negative number is cut to one byte |
| VarInt.ReadVarInt | src/serialize.h:360-372 | reads a number modulo the width, or runs out of bytes |
| VarInt.GetSizeOfVarInt | src/serialize.h:331-341 | the number of bytes written |
| RecordExamples.EncodedIs | src/serialize.h:307-313 | the bytes of a number stand for it by the documented sum |
| RecordExamples.Sizes | src/serialize.h:316-316 | numbers take one, two and three bytes just in the documented ranges |
| RecordExamples.Integers | src/serialize.h:322-326 | the documented examples up to 16511, |
| RecordExamples.LargeIntegers | src/serialize.h:326-327 | and the larger ones |
| RecordExamples.FirstRecord | src/coins.h:40-52 | the first documented record, for any key |
| RecordExamples.SecondRecord | src/coins.h:55-72 | the second one, for any keys |
| OutputCodec.AmountRoundTrip | src/compressor.cpp:142-185 | every amount survives compression |
| OutputCodec.AmountOnto | src/compressor.cpp:142-185 | and every number is the compressed form of an amount |
| OutputCodec.AmountCases | src/test/compress_tests.cpp:40-47 | the repository's own cases of compressed amounts |
| OutputCodec.AmountFits | src/compressor.cpp:142-159 | nothing overflows for any amount of money |
| OutputCodec.AmountRoundTrip64 | src/compressor.cpp:142-185 | in 64 bits every amount survives whose compressed form does not overflow |
| OutputCodec.CompressAmount | src/compressor.cpp:142-159 | computes the compressed form modulo 2^64; its assertion holds |
| OutputCodec.DecompressAmount | src/compressor.cpp:161-185 | computes the amount modulo 2^64, for any number |
| OutputCodec.SpecialRoundTrip | src/compressor.cpp:12-131 | every special script is recovered from its short form |
| OutputCodec.ScriptRoundTrip | src/compressor.h:66-97 | every script survives, except that one over 10000 bytes comes back as a bare OP_RETURN |
| OutputCodec.ScriptSize | src/compressor.h:58-64 | the size calculated without writing is the number of bytes written |
| CoinsCodec.OutRoundTrip | src/compressor.h:114-126 | every output that is not spent survives, up to the size limit of scripts |
| CoinsCodec.OutSize | src/compressor.h:58-126 | the size of an output is that of its compressed amount and script |
| CoinsCodec.CalcMaskSize | src/coins.cpp:17-33 | the mask ends with its last byte that is not zero, and these bytes are counted exactly |
| CoinsCodec.WriteMaskByte | src/coins.h:192-197 | one bit per available output |
| CoinsCodec.CodeRoundTrip | src/coins.h:186-219 | the header code is decoded to the same flags and count, with the count less one when it cannot be zero |
| CoinsCodec.MaskRoundTrip | src/coins.h:191-230 | reading until the counted number of bytes that are not zero takes exactly the mask |
| CoinsCodec.OutsRoundTrip | src/coins.h:199-236 | exactly the available outputs are read, at their places |
| CoinsCodec.LoadedVersion | src/coins.h:179-240 | a record of version -1 comes back with version 127 |
| CoinsCodec.LoadedIff | src/coins.h:179-240 | a record comes back the same, without the spent outputs at its end, exactly if neither its version nor its height is negative and no script is over-long |
| CoinsCodec.RecordRoundTrip | src/coins.h:179-240 | what any record is read back as, in the integers' own widths |
| CoinsCodec.Serialize | src/coins.h:179-206 | writes the record; its assertion holds for every record that is not pruned |
| CoinsCodec.GetSerializeSize | src/coins.h:156-177 | the size announced is the number of bytes written |
| CoinsCodec.UnserializeMask | src/coins.h:220-230 | the mask loop on any stream |
| CoinsCodec.UnserializeOuts | src/coins.h:231-236 | the output loop on any stream |
| CoinsCodec.Unserialize | src/coins.h:208-240 | reads a record from any stream in the integers' own widths, or runs out of bytes |
| CoinsCodec.StoreAndLoad | src/coins.h:156-240 | writing and reading gives just that record |
| Framing.FeedSplit | src/net.cpp:728-774 | feeding in two pieces is feeding the whole |
| Framing.NothingLost | src/net.cpp:728-774 | messages and what is left over are exactly the bytes fed |
| Framing.SentReceived | src/net.cpp:728-805 | every acceptable message that is sent comes out |
| Sending.SizeRead | src/net.cpp:2604-2646 | the size that a header announces is read back |
| Sending.CommandRead | src/protocol.cpp:85-97 | a command is read back exactly if it has at most 12 characters |
| Sending.Sender.BeginMessage | src/net.cpp:2587-2594 | begins a message with its header |
| Sending.Sender.EndMessage | src/net.cpp:2604-2646 | fills in size and checksum and queues the whole message |
| Sending.Sender.PushMessage | src/net.cpp:2587-2646 | queues exactly the header and payload of the message |
| Sending.MessageReceived | src/net.cpp:728-805 | a message of up to 4000000 bytes arrives as it was sent, and a larger one is refused |
| Sending.TooLarge | src/net.cpp:740-752 | and one whose header is refused is rejected as a whole |
| Sending.AllReceived | src/net.cpp:728-805 | a sequence of messages arrives in order, with commands and payloads |
| Sending.Conversation | src/net.cpp:728-774 | whatever a sender queues, however it is cut up on the way, comes out at the receiver message by message |
| Framing.NetMessage.constructor | src/net.h:233-240 | a message yet to begin |
| Framing.NetMessage.ReadHeader | src/net.cpp:776-805 | takes exactly the missing header bytes, and fails exactly for a malformed or absurdly large header |
| Framing.NetMessage.ReadData | src/net.cpp:807-821 | takes at most the missing payload bytes; the buffer is never more than 256 KiB ahead nor larger than the message |
| Framing.Node.Count | src/net.cpp:758-764 | the bytes of a complete message are counted once, under its command or as other |
| Framing.AllCounted | src/net.cpp:758-764 | every byte of the messages received is counted under just one command |
| Framing.Node.Current | src/net.cpp:733-738 | the message the next bytes belong to |
| Framing.Node.Absorb | src/net.cpp:730-770 | one round takes at least one byte or refuses, as the reference does |
| Framing.Node.ReceiveMsgBytes | src/net.cpp:728-774 | accepts exactly what the byte by byte reference does not reject, with the same messages and exact byte counts |
| Framing.Node.TakeMessages | src/main.cpp:6293-6377 | complete messages are taken from the front in order, and receiving is not disturbed |
| Framing.ReceiveAll | src/net.cpp:728-774 | however a stream is cut up and whenever messages are taken out, it is accepted or refused and split into messages all the same |

## Left out

- AddrMan.AddrMan.Clear: on a used manager the record maps are kept, as in the original, so only the exact condition for consistency is stated.
- AddrRebuild.Unserialize: the stream is a sequence of framed items, so that a record is read whole or not at all; it is loaded only into a manager that holds nothing, as the node does at start.
- AddrRebuild.Read: the file's checksum and network magic, checked before, are not modelled.
- BlockRelay.Exchange: blocks of more than 65536 transactions, whose places do not fit the 16-bit numbers of the protocol, are not exchanged; what an announcement of one does is stated by PoolScan.ScannedIff.
- BlockReceiver.PartiallyDownloadedBlock.IndexShortIds: the assignment of keys to the buckets of the library's hash table is an arbitrary function.
- CoinsRuns.Run: memory usage is a function of a record's value, so that spare capacity of vectors is not modelled.
- CoinsCache.CoinsView.BatchWrite: a failing database writes nothing; that it keeps a batch whole or not at all is the database's promise.
- CoinsRuns.Perform: a run ends with the first failing write, as the node does, so it has no failing flush.
- Miner.BlockAssembler.AddPackageTxs: scores, products of 64-bit numbers in floating point, are compared exactly, and which of two equal ones comes first is arbitrary.
- Miner.BlockAssembler.AddPriorityTxs: priorities are an arbitrary real function, and which of two equal ones comes first is arbitrary.
- RollingBloom.RollingBloomFilter.constructor: the number of hash functions and words, computed in floating point, are parameters.
- OutputCodec.ScriptRoundTrip: recovery of uncompressed public keys is an assumption about the curve, stated as `Sound`.
- CoinsCodec.RecordRoundTrip: outputs are those of a transaction, with amounts whose compressed form fits 64 bits, which all money does, and lists within the limit of serialization; overflow of signed integers is taken to wrap around.
- Framing.Node.ReceiveMsgBytes: times of receipt are not modelled.
- Base58.DecodeBase58: strings are C strings; the overloads for strings with embedded null characters stop at the first one.
- Choosing an address to connect to and its chance, which end only with probability one and use floating point.
- 32-bit and 64-bit overflow of ids, counters and block heights.
- The quit flag of the check queue, which the original never sets.
- Replacing the backend of a view and cursors.
- Coinbase construction, fee estimation and everything about a mempool but its graph, sizes and cached sums.
- The plain Bloom filter, whose properties are those of one generation of the rolling one.
- Hash functions, elliptic curves, script execution, networking, threads, files, the database and the user interfaces.
