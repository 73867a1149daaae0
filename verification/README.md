# Verification of the kvs-cash-machine store

The repository is a key-value store on disk. Keys are spread over shards by their hash. A shard
keeps an index file (a hash table from keys to one-byte pointers) and a values file (equal slots,
named by the pointers), and in memory a counter of live values and a Bloom filter. In front of all
shards sits one cache of pointers in memory, a hash table that drops an entry picked at random
when it is full. A remove of a cached key only marks the cached pointer; the mark reaches the index
when the entry is displaced, or is merged in when the shard is compacted.

The project models the store from the probe loops of its hash tables up to `add`, `get` and
`remove`, and proves that it answers as a plain map.

## How it is built

- `KeyValueTypes`, `LinearProbing`, `CacheRow`, `TableBytes`: keys, values, the pointer byte; what
  makes a search over a circular row of slots right; which slots a put can free; the byte form of
  a table.
- `CacheMap`, `StorageHashTable`, `BloomFilter`, `Shard`, `ShardBuilder`, `KVS`: the classes of the
  program, with its fields, loops and branches. Each method is proved against the row, map, set or
  value that the object stands for. A shard's index file is kept as bytes and is decoded and
  encoded by every operation, as in the program.
- `ShardModel`, `RebuildModel`, `StoreModel`: a shard, a compaction and the whole store as values.
  The cache is a map here, from which a put may drop any entry. `StoreInvariant`, `StoreSteps`,
  `StoreRebuild` and `StoreRuns` prove what holds under every such choice: the invariant, each kind
  of change, the rebuild, `Step` for a call, and whole runs.
- `StoreRow`: the same store with its cache as the row of slots, from which only the last entry of
  a cluster can be dropped. `KVS.Add`, `KVS.Get` and `KVS.Remove` are proved to take a `RowStep`, and
  every `RowStep` is a `Step`. `StoreStops` and `StoreLosses` say exactly when a call ends the
  program or can lose a removal, in terms of the store before it, `StoreEnabled` that every call
  can be made, and `StoreExample`, `StoreLossExample` and `FullShard` give runs that come to each
  failure.
- `Client`: calls on one store object, one after the other, are a run, so their results are those of
  a plain map.

The hash function and the numbers of the random generator are arbitrary parameters; the seeds of a
Bloom filter are arbitrary numbers. The number of shards and the size of the cache are parameters of
the store with the program's constants as defaults.

## What was found

- **The write-back of a rebuild.** `KVS::rebuildShard` writes new pointers back with
  `putOrDisplace` and asserts that nothing is displaced (src/KVS.cpp:176-179), but `putOrDisplace`
  makes room before it looks for the key (src/CacheMap.cpp:37). The write-back displaces nothing
  exactly if there is nothing to write or the cache starts with `3 * usedSize <= 2 * size`
  (`StoreRebuild.WriteBackDisplacesNothing`). `CMakeLists.txt` sets no build type, so assertions
  are on unless a builder turns them off; the model has both builds, told apart by
  `Config.asserts`. With assertions the program ends in that case, and until then it answers as a
  map (`StoreRuns.CheckedRunRefinesMap`). Without them the displaced entry is forgotten. However
  often the write-back displaces, it ends short of one entry at most, and of one that could be
  displaced when it began (`StoreLosses.WrittenLayout`); if that was a pending removal of another
  shard, the removed value comes back. `StoreLosses.RebuildIsSafeExactly` and
  `StoreLosses.CallIsSafeExactly` say exactly when no draw can do that. The states of a run mean the
  plain map exactly if no removal is lost (`StoreRuns.RunRefinesMapExactly`), and every run, lossy
  or not, answers as the plain map to which each loss gives back the keys it forgot
  (`StoreRuns.RunAnswers`). `StoreExample` has a run, for any cache of seven slots or more and any two
  shards or more, to a store on which one remove ends a build with assertions, whatever is drawn;
  without them the run can go on to answer a get of a removed key with its old value
  (`StoreLossExample.ExampleLoses`).
- **The counter of live values.** It is right in every state of a run if and only if no removal is
  lost (`StoreRuns.RunCountsExactly`): the forgotten key is live again and was counted out before. On
  the run above it is one too low (`StoreLossExample.LossIsReached`), and two more removes take the
  byte from 1 to 0 to 255 (`StoreLossExample.CounterWraps`). With that counter src/Shard.cpp:151-155
  asks for no rebuild of the shard, though no key of it is live.
- **An assertion of the wrong type.** For an indexed key that the cache knows to be gone the rebuild
  asserts that the index entry is NONEXISTENT (src/ShardBuilder.cpp:55), a type the index never
  holds; the entry is DELETED, as the comment at line 54 says (`StoreRebuild.EntryAssertions`). The
  model follows the code: with assertions the rebuild ends the program there, without them it goes
  on. `StoreExample.GoneIsReached` and `StoreExample.ExampleAsserts` give a run that ends so.
- **Small caches.** `CacheMap::get` does not count the home slot as a free one, so its assertion can
  fail at the load the cache allows exactly below seven slots (`CacheMap.GetNeedsSevenSlots`); the
  tests use five. The row can be full exactly below four slots (`CacheMap.RowsFillBelowFour`), and
  then the search for a victim fails (`CacheMap.CacheMap.PutOrDisplace`).
- **A full shard.** `StorageHashTable::put` is noexcept and `expand` throws, so a new key for a shard
  with 45 indexed keys ends the program (`StoreStops.CallStops`); 45 adds of keys of one shard come to
  that (`FullShard.FullShardStops`).

## Model

| member | source | states |
|---|---|---|
| Client.CallsOnNewStore | src/KVS.cpp:10-170 | any calls made on a new store object, up to the one that ends the program, are a run from the empty store with the results they return; so they are answered as by a plain map with assertions, and without them if the run loses no removal |
| Client.CallAll | src/KVS.cpp:41-170 | calls on an object that is where a run has come to go on with that run, and the object is where the longer run comes to; if a call ends the program, the first one that does is a step to that stop |
| Client.ProgramStore | src/KVS.cpp:10-14 | the store the program makes has 4981 shards with empty values files and index files of 586 bytes, and a cache of 5000 slots |
| KVS.KVS.constructor | src/KVS.cpp:10-14 | the new store keeps the invariant, with an empty cache, empty shards and right counters |
| KVS.KVS.Add | src/KVS.cpp:41-70 | a call is a step of the store from its row and shards; a completed one leaves a valid store in which, unless a rebuild in it lost a removal, the key has the value and every other key its old one; a key whose removal was lost has the value its shard kept |
| KVS.KVS.Get | src/KVS.cpp:72-120 | the value is the key's; whatever the call caches, displaces or rebuilds, a completed one changes no key's value unless a rebuild in it lost a removal, and then exactly the forgotten keys' |
| KVS.KVS.Remove | src/KVS.cpp:122-170 | the key has no value any more, and every other key its old one unless a rebuild in the call lost its removal |
| KVS.KVS.PushOperation | src/KVS.cpp:16-39 | only a pending removal reaches the index; then the shard is rebuilt if required |
| KVS.KVS.RebuildShard | src/KVS.cpp:172-180 | the new shard replaces the old one and the cache is written back, put after put, up to the end or to a failing assertion |
| StoreRow.ProgramRefinesMap | src/KVS.cpp:41-180 | every run of the store on its rows, under every draw, is a run on maps, and answers as a plain map if assertions are on or no removal is lost |
| StoreRow.RowStepIsStep | src/CacheMap.cpp:37-66 | every step that drops the last entry of a cluster is a step that drops some entry, and keeps the row searchable and within its load |
| StoreRow.RowStepIsRight | src/KVS.cpp:41-180 | a call that runs through keeps the invariant, and every key's value but those of keys whose removal it forgot; right counters stay right if and only if it forgets none |
| StoreRuns.RunAnswers | src/KVS.cpp:41-180 | every run answers as the plain map to which each loss gives back the keys it forgot, with the values their shards kept |
| StoreRuns.RunRefinesMap | src/KVS.cpp:41-170 | in a run of any calls, under any choices, in which no removal is lost, every get answers as a plain map, and every state means that map |
| StoreRuns.RunRefinesMapExactly | src/KVS.cpp:41-180 | the states of a run mean the plain map if and only if no call of it loses a removal |
| StoreRuns.CheckedRunRefinesMap | src/KVS.cpp:172-180 | in a build with assertions every run answers as a map for as long as it lasts |
| StoreRuns.LightRunRefinesMap | src/KVS.cpp:41-180 | in any build a run answers as a map while the cache stays below its load |
| StoreRuns.RunKeepsInv | src/KVS.cpp:10-180 | every state of every run, whatever was lost, keeps the invariant: the cache agrees with the indexes, slots are owned singly, keys lie in their shards, the load is kept |
| StoreRuns.RunCounts | src/Shard.cpp:147-149 | up to the first call that loses a removal the counters count the live keys |
| StoreRuns.RunCountsExactly | src/Shard.cpp:147-149 | the counters count the live keys in every state of a run if and only if no call of it loses a removal |
| StoreRuns.StepCountsExactly | src/KVS.cpp:41-180 | a call that runs through keeps right counters right if and only if it loses no removal |
| StoreRuns.RunReaches | src/KVS.cpp:10-180 | every state of every run means the map its calls make, with what losses gave back |
| StoreRuns.StepIsRight | src/KVS.cpp:16-180 | a call that runs through does to each key what it should, and leaves right counters right, exactly if it loses no removal; a forgotten key has the value its shard kept |
| StoreRuns.ForgottenIsKept | src/KVS.cpp:176-179 | only a key whose removal was pending can be forgotten, never the call's own, and its shard has kept its value through the call |
| StoreRuns.AssertionsLoseNothing | src/KVS.cpp:178 | with assertions no call that runs through loses a removal |
| StoreRuns.LightCallLosesNothing | src/KVS.cpp:41-180 | nor does any call, in any build, that begins with the cache below its load |
| StoreStops.CallStops | src/KVS.cpp:41-180 | for every call, on a hit and on a miss: it ends the program for want of room if and only if it adds a new key to an index of 45; at the assertion on the index entry, or at the one on the write-back, if and only if assertions are on and the store before it and the displaced key are as stated |
| StoreStops.RemoveStops | src/KVS.cpp:126-134 | a remove of a cached key ends the program if and only if assertions are on, it makes the shard ask for a rebuild, and the cache is over its load or knows an indexed key of the shard to be gone |
| StoreLosses.WrittenLayout | src/KVS.cpp:176-179 | whatever the write-back frees on its way, it ends with the layout it began with, or short of one entry that ended a cluster when it began |
| StoreLosses.RebuildIsSafeExactly | src/KVS.cpp:176-179 | without assertions a rebuild, in any order of its entries, loses no removal under any draw if and only if the cache is below its load, or nothing is written back, or no removal pending for another shard ends a cluster |
| StoreLosses.CallIsSafeExactly | src/KVS.cpp:16-180 | without assertions a call loses no removal under any draw if and only if no slot that its put may free brings it to such a rebuild, as a condition on the row and the shards before the call; if one does, some write-back loses one in every order of the entries |
| StoreLosses.SafeRunRefinesMap | src/KVS.cpp:41-180 | in any build a run whose every call meets that condition, on the row and the shards before it, loses no removal and answers as a plain map |
| StoreEnabled.StepIsEnabled | src/KVS.cpp:41-170 | every call on a store that keeps the invariant has an outcome, whichever of the slots it may free is drawn |
| StoreEnabled.RebuildIsEnabled | src/KVS.cpp:172-180 | so has every rebuild, in any order of the entries |
| StoreExample.BeforeIsReached | src/KVS.cpp:41-170 | a run from the empty store comes to a cache over its load in which a pending removal ends a cluster |
| StoreExample.ExampleStops | src/KVS.cpp:178 | with assertions a remove there ends the program at the write-back, whatever is drawn |
| StoreLossExample.LossIsReached | src/KVS.cpp:176-179 | without assertions that remove can bring a removed value back, and the counter of its shard is then wrong |
| StoreLossExample.ExampleLoses | src/KVS.cpp:176-179 | without assertions a run goes on from there to answer a get of a removed key with its old value, where a plain map has none |
| StoreLossExample.CounterWraps | src/Shard.cpp:147-155 | and another to a shard with no live key whose counter has wrapped to 255, with which no shard asks for a rebuild |
| StoreExample.GoneIsReached | src/KVS.cpp:72-120 | a run comes to an indexed key that the cache knows to be gone |
| StoreExample.ExampleAsserts | src/ShardBuilder.cpp:54-57 | with assertions a remove there ends the program at the assertion on the index entry, whatever is drawn |
| StoreLossExample.ExampleFitsProgram | include/KeyValueTypes.h:13-15 | for 5000 cache slots and 4981 shards there are a hash and keys as the examples need |
| FullShard.FullShardStops | src/StorageHashTable.cpp:121-124 | a run of 45 adds of keys of one shard comes to a store on which one more ends the program, whatever is drawn |
| StoreSteps.PrepareIsRight | src/KVS.cpp:41-170 | up to the rebuild every call keeps the invariant and gives every key the value it should have, in each case of each call |
| StoreSteps.EvictionIsTransparent | src/KVS.cpp:16-39 | dropping any cached entry with its push keeps every key's value and right counters, though the push leaves the counter alone |
| StoreSteps.DroppedRemovalRevivesValue | src/KVS.cpp:21-24 | the push is needed: without it a dropped removal brings the value back |
| StoreSteps.AliveIsBounded | src/Shard.cpp:147-149 | a right counter is at most the number of indexed keys, at most 45; raising it never wraps, nor does lowering it for a live key |
| StoreSteps.AddHit | src/KVS.cpp:46-56 | an add of a cached key writes its slot, undoes a pending removal, and changes no other key |
| StoreSteps.AddMiss | src/KVS.cpp:58-64 | an add that goes to the shard gives the key its value and changes no other key |
| StoreSteps.GetMiss | src/KVS.cpp:89-109 | caching what the shard answers changes no key's value |
| StoreSteps.RemoveHit | src/KVS.cpp:126-134 | marking a cached key removed takes its value only, and leaves the counter right |
| StoreSteps.RemoveMiss | src/KVS.cpp:142-163 | a remove of a key that is not cached takes its value only |
| StoreInvariant.ChangeIsLocal | src/KVS.cpp:41-170 | a change of one key's pointer, slot and cache entry that fits together keeps the invariant, every other key's value, and the counters if the changed one follows the key's liveness |
| StoreInvariant.LiveKeysAfterChange | src/Shard.cpp:147-149 | the number of live keys moves by one exactly as the changed key becomes live or dead |
| StoreInvariant.MeaningIsLive | src/KVS.cpp:72-92 | a key has a value if and only if its index entry is present and no removal is pending, and then the one in its slot |
| StoreRebuild.RebuildStepIsRight | src/KVS.cpp:172-180 | a rebuild that runs through keeps the invariant, and every key's value exactly if its write-back loses no removal; a forgotten key gets back the value its shard keeps |
| StoreRebuild.RebuildStops | src/KVS.cpp:172-180 | a rebuild ends the program if and only if assertions are on and an indexed key is known to be gone, or the cache is over its load and there is something to write back |
| StoreRebuild.CompactionKeepsLiveKeys | src/ShardBuilder.cpp:46-75 | the new index holds exactly the live keys of the shard, as many as a right counter says |
| StoreRebuild.CompactionIsIdeal | src/ShardBuilder.cpp:46-91 | all of them are present with their old values, and the cache written back in place agrees with the new index |
| StoreRebuild.IdealKeepsMeaning | src/ShardBuilder.cpp:28-91 | compaction with that write-back keeps the value of every key of every shard |
| StoreRebuild.RebuildIsSmall | src/ShardBuilder.cpp:39-89 | with right counters a required rebuild gives at most 22 entries, within the load of the initial table, and a shard that asks for no rebuild |
| StoreRebuild.WriteBackDisplacesNothing | src/KVS.cpp:176-179 | the write-back of cached keys displaces nothing, and keeps the size, if and only if it is empty or the cache starts below its load |
| StoreRebuild.WriteBackIsSubmap | src/KVS.cpp:176-179 | whatever the write-back displaces, each pointer left in the cache is the right one |
| StoreRebuild.LostRemovalShows | src/KVS.cpp:176-179 | a removal that was displaced and forgotten gives its key the old value back |
| StoreRebuild.EntryAssertions | src/ShardBuilder.cpp:54-67 | a key cached as present is present in the index; one known to be gone is deleted there, never NONEXISTENT |
| RebuildModel.RebuildCarries | src/ShardBuilder.cpp:46-75 | the loop copies each kept key's value to a slot of its own, and lists each cached key to rewrite once, with its new pointer or as gone |
| RebuildModel.RebuildKeepsOrder | src/ShardBuilder.cpp:46-75 | kept keys get their slots, and updates their places, in the order of the entries |
| RebuildModel.EverySlotOwned | src/ShardBuilder.cpp:60-71 | every new slot belongs to a key of the new index |
| ShardBuilder.ShardBuilder.CreateShard | src/ShardBuilder.cpp:14-26 | a new shard is well-formed and has no values, and its index file is that of 34 free slots, byte by byte |
| ShardBuilder.ShardBuilder.RebuildShard | src/ShardBuilder.cpp:28-91 | the new shard and the updates are those of the compaction of the old one, taken in the order of its index file, and its table has 34 slots for up to 22 kept keys and 68 for more; none if and only if the assertion on a key known to be gone ends it |
| Shard.Shard.ReadValue | src/Shard.cpp:18-38 | the pointer and the value are those of the index, whether or not the filter answers first |
| Shard.Shard.WriteValue | src/Shard.cpp:40-80 | overwrites, revives or appends as the index says, and leaves the index file with the slots of the table after that put; none if and only if the index overflows |
| Shard.Shard.RemoveEntry | src/Shard.cpp:82-106 | a present key is marked deleted, in its slot of the file, and the counter lowered; anything else stays |
| Shard.Shard.PushRemoveEntry | src/Shard.cpp:108-131 | as the removal, without the counter |
| Shard.Shard.IsRebuildRequired | src/Shard.cpp:151-159 | in a valid shard, twice the live count is below the slot count, the byte-wide counts notwithstanding |
| Shard.Shard.IndexFileSize | src/StorageHashTable.cpp:28-42 | in a valid shard the index file has 34 slots and 586 bytes up to 22 keys, and 68 slots and 1164 bytes from then on |
| Shard.Shard.FromEntries | src/Shard.cpp:163-169 | the counter is the number of entries, and the filter stands for exactly their keys |
| Shard.Shard.FilterIsSound | src/Shard.cpp:20-22 | every indexed key passes the filter |
| Shard.CapacityDecides | src/StorageHashTable.cpp:85-86 | the table in a shard's file refuses a key if and only if the key is new and 45 are held |
| ShardModel.CounterIsByte | src/Shard.cpp:147-149 | the counter is one byte: each step is the inverse of the other, and only at 255 and 0 do they wrap |
| ShardModel.WriteDirectlyIsLocal | src/Shard.cpp:140-145 | a write through one key's pointer changes that key's value and no other's |
| ShardModel.WriteValueIsLocal | src/Shard.cpp:40-80 | a write keeps the shard's invariant, stores the value under the returned pointer, touches no other key, and counts a key that was not present |
| ShardModel.MarkDeletedIsLocal | src/Shard.cpp:108-131 | marking a key deleted keeps its slot and every other key's pointer and value |
| StorageHashTable.StorageHashTable.Get | src/StorageHashTable.cpp:89-98 | the full scan finds the map's pointer for every key, the all-zero one too, and a free slot or none otherwise |
| StorageHashTable.StorageHashTable.Put | src/StorageHashTable.cpp:67-87 | the mapping changes at the key only, and the slots are those of `TablePut`; the put fails if and only if a new key overloads a table that cannot double |
| StorageHashTable.TablePutGrows | src/StorageHashTable.cpp:80-86 | the table doubles if and only if the key is new and one key more is over two thirds of the slots |
| StorageHashTable.HeldPut | src/StorageHashTable.cpp:76-83 | a put of a held key overwrites it where it lies |
| StorageHashTable.StorageHashTable.Expand | src/StorageHashTable.cpp:121-131 | the rehash keeps the mapping and doubles the table, with the entries put in the order of their old slots; none of its puts expands again |
| StorageHashTable.StorageHashTable.GetEntries | src/StorageHashTable.cpp:112-119 | every binding of the table once |
| StorageHashTable.StorageHashTable.SerializeToByteArray | src/StorageHashTable.cpp:28-42 | 17 bytes a slot, sixteen of the key and then the pointer, and eight of the counter, the lowest first |
| StorageHashTable.StorageHashTable.Deserialize | src/StorageHashTable.cpp:9-26 | the slots and the counter that lie in the bytes in that format; none if and only if the length is not 17 for each slot and eight, the lengths below eight at which the subtraction wraps included |
| TableBytes.LayoutDecides | src/StorageHashTable.cpp:9-42 | bytes lie in that format for a table if and only if they are the ones written for it, and if and only if it is the one read from them |
| TableBytes.TableReadsBack | src/StorageHashTable.cpp:9-42 | any table written and read again has its slots and its counter |
| TableBytes.TableWritesBack | src/StorageHashTable.cpp:9-42 | any bytes of a table's length read and written again are themselves |
| CacheMap.CacheMap.Get | src/CacheMap.cpp:86-97 | the home slot if it carries the key, or else the first slot after it that is free or does; it holds the map's pointer, or is free if the key is absent; the assertion fails if and only if no slot but the home stops the search, never from seven slots on |
| CacheMap.CacheMap.PickVictim | src/CacheMap.cpp:38-62 | from any random index both searches end at the last slot of the cluster around it or before it, one whose cyclic successor is free; the assertion fails if and only if the row is full |
| CacheMap.CacheMap.PutOrDisplace | src/CacheMap.cpp:28-84 | one slot at the end of a cluster, the one that the next random number leads to, is freed if and only if the load was over two thirds, and the entry goes where the search for its key stops; so the map loses the displaced binding and is updated at the key, and the count of used slots is right if and only if the entry is not a free one; the assertion fails if and only if the row was full, never from four slots on |
| CacheMap.CacheMap.SetValuePresent | src/KVS.cpp:126-128 | the flag set through the reference changes that slot only, and so that key's pointer only, unless it makes the slot a free one |
| CacheMap.RowsFillBelowFour | src/CacheMap.cpp:37-42 | a row within the load the cache allows can be full if and only if it has fewer than four slots |
| CacheMap.GetNeedsSevenSlots | src/CacheMap.cpp:91-95 | the assertion of the search can fail at the load the cache allows if and only if it has fewer than seven slots |
| CacheRow.DroppableIsDrawn | src/CacheMap.cpp:40-62 | a slot can be freed if and only if some random index leads to it |
| CacheRow.DrawDecides | src/CacheMap.cpp:40-62 | no random index leads to two slots |
| CacheRow.RowPutIsRight | src/CacheMap.cpp:28-84 | a put that frees such a slot keeps the row searchable and within its load, and changes the map as a put should |
| CacheRow.PutInPlace | src/CacheMap.cpp:68-81 | a put of a held key that frees no slot, or the key's own, overwrites the key where it lies |
| LinearProbing.FindNextByPredicate | src/CacheMap.cpp:18-26 | the first matching slot strictly after the start, or the start if there is none |
| LinearProbing.FindSlotFor | src/CacheMap.cpp:68-78 | the first slot from the home on that is free or carries the key |
| LinearProbing.StopDecides | src/CacheMap.cpp:91-96 | where that search stops decides whether the key is held, and where |
| LinearProbing.MatchDecides | src/StorageHashTable.cpp:89-98 | so does the first slot that carries the key, though free slots carry the all-zero key |
| LinearProbing.StoreWhereStopped | src/CacheMap.cpp:74-81 | storing there keeps the row searchable and changes the map at that key only |
| LinearProbing.FreeLastOfCluster | src/CacheMap.cpp:62-65 | freeing a slot whose successor is free keeps the row searchable without a tombstone, and takes that key only |
| LinearProbing.FreeInsideClusterBreaks | src/CacheMap.cpp:43-48 | freeing a slot on another key's path would not |
| LinearProbing.EntriesEnumerate | src/StorageHashTable.cpp:112-119 | the entries of a row give every binding once |
| LinearProbing.EntriesInOrder | src/StorageHashTable.cpp:112-119 | each comes after as many others as there are taken slots before its own |
| LinearProbing.InArcIsFewerSteps | src/CacheMap.cpp:20-25 | a slot lies on a walk if and only if, modulo the size, it takes fewer steps than the end |
| BloomFilter.BloomFilter.Add | src/BloomFilter.cpp:17-19 | exactly the key's bits are set besides those set before |
| BloomFilter.BloomFilter.CheckExist | src/BloomFilter.cpp:21-26 | true if and only if all the key's bits are set |
| BloomFilter.BloomFilter.PassesByHashes | src/BloomFilter.cpp:15-26 | a key passes if and only if each of its two hashes agrees, modulo nineteen, with a hash of some added key |
| BloomFilter.BitIsRemainder | src/BloomFilter.cpp:15 | the bit of a hash is what is left of it after whole nineteens |
| BloomFilter.BloomFilter.PassesIffCovered | src/BloomFilter.cpp:17-26 | a key passes if and only if added keys cover its bits; an added key always does |
| KeyValueTypes.HomeIsRemainder | src/Shard.cpp:14-16 | a key's shard, and its home slot in a cache or a table, is what is left of its hash under seed 0 after whole multiples of their number |
| KeyValueTypes.AtOffsetIsByte | src/KeyValueTypes.cpp:54-60 | the byte of a pointer to a value is its slot, a slot each 2048 bytes, and 128 more if it is present |
| KeyValueTypes.AtOffsetReadsBack | src/KeyValueTypes.cpp:54-60 | a pointer to one of the slots 0 to 120 reads back its slot, offset and flag |
| KeyValueTypes.FlagFlipIsReversible | src/KeyValueTypes.cpp:88-95 | marking a present pointer deleted keeps its slot and can be undone if and only if the slot is below the two reserved numbers |
| KeyValueTypes.MasksAreArithmetic | src/KeyValueTypes.cpp:78-95 | the model's arithmetic on the pointer byte is the program's bit masking, and its types and reserved bytes are the program's |

## Left out

- Real files, directories, renames and stream errors: a values file is a sequence of slots, an index file a sequence of bytes, and both belong to the shard object.
- Reads and writes past the end of the values file: no pointer of a reachable store leads there.
- The state a program ended by an assertion or an exception leaves on disk; crash consistency has no support in the code.
- Values of another length than VALUE_SIZE, which the code does not check: the type of values has that length only.
- xxHash and the random generators: arbitrary functions, and arbitrary numbers for the Bloom seeds; nothing is said about distributions or false-positive rates.
- Word widths of sizes and hashes: table sizes and counts are small by proof; the counter of live values and the slot count wrap at 256 in the model as in the code.
- CacheMap.CacheMap.PutOrDisplace: does not say what a build without assertions does to a full row, which only a cache of one to three slots can have, and nothing of the map after a put of an entry with the empty pointer, which no caller makes.
- KVS.KVS.constructor: asks for a cache of seven slots or more, the least for which no search of the cache fails.
- KVS.KVS.Add: promises every other key its old value only if no rebuild in the call lost its removal, because the program can lose one (StoreLossExample.ExampleLoses).
- KVS.KVS.Get: promises that it changes no key's value only under the same condition, for the same reason.
- KVS.KVS.Remove: promises every other key its old value only under the same condition, for the same reason.
- `KVS::clear` (not implemented there) and `CacheMap::clear` (not called by the store); exception texts, the ByteArray wrapper and the benchmark.
