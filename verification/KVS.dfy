/** The key-value store: the cache in front of the shards (src/KVS.cpp). Each call takes the
    state to one that the store's protocol allows, and so answers as a plain map would. */
module KVS {
  import opened KeyValueTypes
  import opened LinearProbing
  import opened ShardModel
  import opened RebuildModel
  import opened StoreModel
  import opened StoreSteps
  import opened StoreRebuild
  import opened StoreRuns
  import opened CacheRow
  import opened StoreRow
  import opened CacheMap
  import opened Shard
  import opened ShardBuilder

  /** How a call ends. */
  datatype Status = Completed | Terminated(reason: StopReason)

  ghost function States(shards: seq<Shard>): (states: seq<ShardState>)
    reads shards
    ensures |states| == |shards| && forall i :: 0 <= i < |shards| ==> states[i] == shards[i].State()
  {
    if shards == [] then [] else States(shards[..|shards| - 1]) + [shards[|shards| - 1].State()]
  }

  lemma StatesReplaced(shards: seq<Shard>, i: nat, newShard: Shard)
    requires i < |shards|
    ensures States(shards[i := newShard]) == States(shards)[i := newShard.State()]
  {
  }

  ghost predicate Apart(shards: seq<Shard>) {
    forall i, j :: 0 <= i < j < |shards| ==> shards[i] != shards[j] && shards[i].filter != shards[j].filter
  }

  lemma ReplacedApart(shards: seq<Shard>, i: nat, newShard: Shard)
    requires i < |shards| && Apart(shards)
    requires forall s :: s in shards ==> s != newShard && s.filter != newShard.filter
    ensures Apart(shards[i := newShard])
    ensures forall s :: s in shards[i := newShard] ==> s in shards || s == newShard
  {
    assert forall j :: 0 <= j < |shards| ==> shards[j] in shards;
  }

  /** The new shard and the pointers to write back are those of the compaction. */
  ghost predicate Built(cfg: Config, rs: RowStore, i: nat, entries: seq<Entry>, s: ShardState, newEntries: seq<Entry>)
    requires RowInv(cfg, rs) && i < |rs.shards|
  {
    && Enumerates(entries, rs.shards[i].index) && Readable(entries, |rs.shards[i].values|)
    && !(cfg.asserts && SomeKnownGone(entries, Contents(rs.slots)))
    && newEntries == Compacted(Abs(rs), i, entries).updates
    && s == RebuiltShard(Compacted(Abs(rs), i, entries))
    && AllTaken(newEntries)
  }

  class KVS {
    const cfg: Config
    const cacheMap: CacheMap
    var shards: seq<Shard>

    /** The parts are well-formed, and no two shards share an object. */
    ghost predicate Sound()
      reads this, cacheMap, cacheMap.data, shards, set s | s in shards :: s.filter
    {
      && cacheMap.Valid() && cacheMap.hash == cfg.hash
      && cacheMap.data.Length == cfg.cacheSize >= 7
      && |shards| > 0
      && (forall s :: s in shards ==> s.Valid() && s.hash == cfg.hash)
      && Apart(shards)
    }

    /** The store this object stands for. */
    ghost function State(): RowStore
      reads this, cacheMap, cacheMap.data, shards
    {
      RowStore(cacheMap.data[..], States(shards))
    }

    ghost predicate Valid()
      reads this, cacheMap, cacheMap.data, shards, set s | s in shards :: s.filter
    {
      Sound() && RowInv(cfg, State())
    }

    constructor (hash: Hasher, asserts: bool, random: nat -> nat, shardNumber: nat := SHARD_NUMBER,
                 cacheSize: nat := CACHE_MAP_SIZE)
      requires shardNumber > 0 && cacheSize >= 7
      ensures Valid() && InitialRow(cfg, State()) && CountersOk(Abs(State()))
      ensures fresh(cacheMap) && fresh(cacheMap.data) && forall s :: s in shards ==> fresh(s) && fresh(s.filter)
      ensures cfg == Config(hash, cacheSize, asserts) && |shards| == shardNumber && cacheMap.random == random
    {
      cfg := Config(hash, cacheSize, asserts);
      cacheMap := new CacheMap(hash, cacheSize, random);
      shards := [];
      new;
      shards := CreateShards(hash, shardNumber);
      InitialRowIsRight(cfg, State());
      InitialIsRight(cfg, Abs(State()));
    }

    static method CreateShards(hash: Hasher, shardNumber: nat) returns (shards: seq<Shard>)
      ensures |shards| == shardNumber && Apart(shards)
      ensures forall s :: s in shards ==> s.Valid() && s.hash == hash && s.State() == EMPTY_SHARD
      ensures forall s :: s in shards ==> fresh(s) && fresh(s.filter)
    {
      shards := [];
      for i := 0 to shardNumber
        invariant |shards| == i && Apart(shards)
        invariant forall s :: s in shards ==> s.Valid() && s.hash == hash && s.State() == EMPTY_SHARD
        invariant forall s :: s in shards ==> fresh(s) && fresh(s.filter)
      {
        var shard := ShardBuilder.CreateShard(hash);
        shards := shards + [shard];
      }
    }

    /** A put into the cache. Its search for a victim succeeds in a cache of this size. */
    method Put(e: Entry) returns (displaced: Option<Entry>, ghost drop: Option<nat>)
      requires Sound() && !e.IsFree()
      modifies cacheMap, cacheMap.data
      ensures Sound() && ValidDrop(old(State()).slots, drop)
      ensures State() == old(State()).(slots := RowPut(cfg.hash, old(State()).slots, e, drop))
      ensures displaced == if drop.Some? then Some(old(State()).slots[drop.value]) else None
    {
      var ok;
      ok, displaced, drop := cacheMap.PutOrDisplace(e);
      assert States(shards) == old(States(shards));
    }

    /** Rebuilds a shard and writes the new pointers back into the cache. */
    method RebuildShard(i: nat) returns (status: Status, ghost d: Draw)
      requires Valid() && i < |shards| && RebuildRequired(State().shards[i])
      modifies this`shards, cacheMap, cacheMap.data
      ensures RebuildEnded(old(State()), i, status, d)
      ensures status.Completed? ==> Renewed()
    {
      var newShard, newEntries;
      newShard, newEntries, d := BuildShard(i);
      if newShard.None? {
        status := Terminated(IndexAssertion);
      } else {
        status, d := Install(i, newShard.value, newEntries, d);
      }
    }

    /** The shard has been rebuilt, or an assertion has ended the rebuild. */
    ghost predicate RebuildEnded(rs: RowStore, i: nat, status: Status, d: Draw)
      reads this, cacheMap, cacheMap.data, shards, set s | s in shards :: s.filter
    {
      && RowInv(cfg, rs) && i < |rs.shards|
      && match status
         case Completed => Sound() && RowRebuild(cfg, rs, i, d, RowRunning(State()))
         case Terminated(reason) => RowRebuild(cfg, rs, i, d, RowStopped(reason))
    }

    /** The rebuilt shard takes the place of the old one, and the cache is written back. */
    method Install(i: nat, newShard: Shard, newEntries: seq<Entry>, ghost built: Draw)
      returns (status: Status, ghost d: Draw)
      requires Valid() && i < |shards|
      requires newShard !in shards && newShard.Valid() && newShard.hash == cfg.hash
      requires forall s :: s in shards ==> s.filter != newShard.filter
      requires Built(cfg, State(), i, built.entries, newShard.State(), newEntries)
      modifies this`shards, cacheMap, cacheMap.data
      ensures RebuildEnded(old(State()), i, status, d)
      ensures forall s :: s in shards ==> s in old(shards) || s == newShard
    {
      ghost var rs, s := State(), newShard.State();
      Replace(i, newShard);
      var written;
      written, d := WriteBackAll(newEntries, built);
      status := if written then Completed else Terminated(WriteBackAssertion);
      WriteBackEnds(cfg, rs, i, d, s, newEntries, !written);
    }

    method BuildShard(i: nat) returns (newShard: Option<Shard>, newEntries: seq<Entry>, ghost d: Draw)
      requires Valid() && i < |shards| && RebuildRequired(State().shards[i])
      ensures newShard.None? ==> RowRebuild(cfg, State(), i, d, RowStopped(IndexAssertion))
      ensures newShard.Some? ==>
                && fresh(newShard.value) && fresh(newShard.value.filter)
                && newShard.value.Valid() && newShard.value.hash == cfg.hash
                && Built(cfg, State(), i, d.entries, newShard.value.State(), newEntries)
    {
      CanBeRebuilt(cfg, Abs(State()), i);
      ghost var entries;
      newShard, newEntries, entries := ShardBuilder.RebuildShard(shards[i], cacheMap, cfg.asserts);
      d := Draw(None, entries, []);
      if newShard.None? {
        GoneStops(cfg, State(), i, d);
      } else {
        UpdatesAreCached(cfg, Abs(State()), i, entries);
      }
    }

    method Replace(i: nat, newShard: Shard)
      requires Sound() && i < |shards| && newShard !in shards && newShard.Valid() && newShard.hash == cfg.hash
      requires forall s :: s in shards ==> s.filter != newShard.filter
      modifies this`shards
      ensures Sound() && shards == old(shards)[i := newShard]
      ensures State() == RowWithShard(old(State()), i, newShard.State())
    {
      StatesReplaced(shards, i, newShard);
      Swap(i, newShard);
    }

    method Swap(i: nat, newShard: Shard)
      requires Sound() && i < |shards| && newShard !in shards && newShard.Valid() && newShard.hash == cfg.hash
      requires forall s :: s in shards ==> s.filter != newShard.filter
      modifies this`shards
      ensures Sound() && shards == old(shards)[i := newShard]
    {
      ReplacedApart(shards, i, newShard);
      shards := shards[i := newShard];
    }

    /** The write-back; false if an assertion ends it. */
    method WriteBackAll(newEntries: seq<Entry>, ghost built: Draw) returns (written: bool, ghost d: Draw)
      requires Sound() && AllTaken(newEntries)
      modifies cacheMap, cacheMap.data
      ensures Sound() && State() == old(State()).(slots := State().slots)
      ensures d == built.(drops := d.drops)
      ensures RowWriteBack(cfg, old(State()).slots, newEntries, d.drops, !written)
      ensures written ==> State().slots == RowWritten(cfg.hash, old(State()).slots, newEntries, d.drops)
    {
      ghost var rs, drops := State(), [];
      written := true;
      for j := 0 to |newEntries|
        invariant Sound() && State() == rs.(slots := State().slots)
        invariant RowWriteBack(cfg, rs.slots, newEntries[..j], drops, false)
        invariant State().slots == RowWritten(cfg.hash, rs.slots, newEntries[..j], drops)
      {
        var displaced;
        ghost var drop;
        displaced, drop := Put(newEntries[j]);
        WriteBackGoesOn(cfg, rs.slots, newEntries, j, drops, drop);
        drops := drops + [drop];
        if cfg.asserts && displaced.Some? {
          return false, built.(drops := drops);
        }
      }
      assert newEntries[..|newEntries|] == newEntries;
      d := built.(drops := drops);
    }

    /** A change to one shard changes the store at that shard only. */
    twostate lemma OneShardChanged(i: nat)
      requires old(Sound()) && shards == old(shards) && i < |shards|
      requires unchanged(cacheMap) && unchanged(cacheMap.data)
      requires forall j :: 0 <= j < |shards| && j != i ==> unchanged(shards[j]) && unchanged(shards[j].filter)
      requires shards[i].Valid()
      ensures Sound()
      ensures State() == RowWithShard(old(State()), i, shards[i].State())
    {
      forall j | 0 <= j < |shards|
        ensures shards[j].Valid() && shards[j].hash == cfg.hash
        ensures shards[j].State() == if j == i then shards[i].State() else old(shards[j].State())
      {
        assert shards[j] in shards;
      }
    }

    /** Looks at one shard, and rebuilds it if need be. */
    method RebuildIfRequired(shardIndex: nat) returns (status: Status, ghost d: Draw)
      requires Valid() && shardIndex < |shards|
      modifies this`shards, cacheMap, cacheMap.data
      ensures Finished(old(State()), Some(shardIndex), status, d)
      ensures status.Completed? ==> Renewed()
    {
      assert shards[shardIndex] in shards;
      var required := shards[shardIndex].IsRebuildRequired();
      if required {
        status, d := RebuildShard(shardIndex);
      } else {
        status, d := Completed, Draw(None, [], []);
      }
    }

    /** The call has finished from this store on, with the rebuild it asks for. */
    ghost predicate Finished(ready: RowStore, check: Option<nat>, status: Status, d: Draw)
      reads this, cacheMap, cacheMap.data, shards, set s | s in shards :: s.filter
    {
      && RowInv(cfg, ready)
      && match status
         case Completed => Sound() && RowFinishes(cfg, ready, check, d, RowRunning(State()))
         case Terminated(reason) => RowFinishes(cfg, ready, check, d, RowStopped(reason))
    }

    /** A delayed removal reaches the index of its shard. */
    method PushRemoval(displaced: Entry)
      requires Sound() && displaced.ptr.IsDeleted()
      modifies shards
      ensures Sound() && State() == RowPushed(cfg, old(State()), displaced)
    {
      var shardIndex := Home(cfg.hash, displaced.key, |shards|);
      assert shards[shardIndex] in shards;
      var e := shards[shardIndex].PushRemoveEntry(displaced.key);
      OneShardChanged(shardIndex);
    }

    /** A displaced entry is pushed to its shard, which is rebuilt if need be. */
    method PushOperation(displaced: Entry) returns (status: Status, ghost d: Draw)
      requires Sound() && RowInv(cfg, RowPushed(cfg, State(), displaced))
      modifies this`shards, cacheMap, cacheMap.data, shards
      ensures Finished(RowPushed(cfg, old(State()), displaced),
                       Some(Home(cfg.hash, displaced.key, |old(shards)|)), status, d)
      ensures status.Completed? ==> Renewed()
    {
      if displaced.ptr.IsDeleted() {
        PushRemoval(displaced);
      }
      status, d := RebuildIfRequired(Home(cfg.hash, displaced.key, |shards|));
    }

    /** Caches an entry and pushes what it displaces. */
    method PutAndPushEntry(e: Entry) returns (status: Status, ghost d: Draw)
      requires Sound() && !e.IsFree() && Linked(cfg, Virtual(Abs(State()), e.key, e.ptr))
      requires !Lookup(Contents(State().slots), e.key).IsDeleted()
      modifies this`shards, cacheMap, cacheMap.data, shards
      ensures ValidDrop(old(State()).slots, d.drop)
      ensures Finished(RowPutAndPush(cfg, old(State()), e, d.drop), RowCheck(cfg, old(State()), d.drop), status, d)
      ensures status.Completed? ==> Renewed()
    {
      ghost var rs := State();
      var displaced;
      ghost var drop;
      displaced, drop := Put(e);
      RowPutKeepsInv(cfg, rs, e, drop);
      status, d := PushDisplaced(displaced, rs, e, drop);
    }

    /** The push of what a put displaced, if it did. */
    method PushDisplaced(displaced: Option<Entry>, ghost rs: RowStore, ghost e: Entry, ghost drop: Option<nat>)
      returns (status: Status, ghost d: Draw)
      requires |rs.slots| > 0 && |rs.shards| > 0 && RowInv(cfg, RowPutAndPush(cfg, rs, e, drop))
      requires Sound() && State() == rs.(slots := RowPut(cfg.hash, rs.slots, e, drop))
      requires drop.Some? ==> drop.value < |rs.slots|
      requires displaced == if drop.Some? then Some(rs.slots[drop.value]) else None
      modifies this`shards, cacheMap, cacheMap.data, shards
      ensures d.drop == drop
      ensures Finished(RowPutAndPush(cfg, rs, e, drop), RowCheck(cfg, rs, drop), status, d)
      ensures status.Completed? ==> Renewed()
    {
      if displaced.Some? {
        status, d := PushOperation(displaced.value);
        d := d.(drop := drop);
      } else {
        status, d := Completed, Draw(drop, [], []);
      }
    }

    /** The end of a call that missed the cache: its shard has answered, and what it said of
        the key is put into the cache. */
    method FinishMiss(e: Entry, ghost rs: RowStore, ghost op: Op) returns (status: Status, ghost d: Draw)
      requires RowInv(cfg, rs) && Puts(Abs(rs), op)
      requires op.Add? ==> !Overflows(rs.shards[ShardOf(cfg, Abs(rs), op.key)], op.key)
      requires var i := ShardOf(cfg, Abs(rs), op.key);
               var (s, ptr) := WriteOf(rs.shards[i], op);
               Sound() && State() == RowWithShard(rs, i, s) && e == Entry(op.key, ptr)
      modifies this`shards, cacheMap, cacheMap.data, shards
      ensures Took(rs, op, status, d)
      ensures status.Completed? ==> Renewed()
    {
      PutIsRight(cfg, Abs(rs), op);
      status, d := PutAndPushEntry(e);
      StepByPut(cfg, rs, op, d, if status.Completed? then RowRunning(State()) else RowStopped(status.reason));
    }

    // ----- The calls into one shard, and what each does to the store -----

    method WriteValueDirectly(shardIndex: nat, ptr: Ptr, value: Value)
      requires Sound() && shardIndex < |shards| && ptr.GetIndex() < |State().shards[shardIndex].values|
      modifies shards
      ensures Sound()
      ensures State() == RowWithShard(old(State()), shardIndex,
                                      WriteDirectly(old(State()).shards[shardIndex], ptr, value))
    {
      assert shards[shardIndex] in shards;
      shards[shardIndex].WriteValueDirectly(ptr, value);
      OneShardChanged(shardIndex);
    }

    method IncrementAliveValuesCnt(shardIndex: nat)
      requires Sound() && shardIndex < |shards|
      modifies shards
      ensures Sound()
      ensures var s := old(State()).shards[shardIndex];
              State() == RowWithShard(old(State()), shardIndex, s.(alive := Increment(s.alive)))
    {
      assert shards[shardIndex] in shards;
      shards[shardIndex].IncrementAliveValuesCnt();
      OneShardChanged(shardIndex);
    }

    method DecrementAliveValuesCnt(shardIndex: nat)
      requires Sound() && shardIndex < |shards|
      modifies shards
      ensures Sound()
      ensures var s := old(State()).shards[shardIndex];
              State() == RowWithShard(old(State()), shardIndex, s.(alive := Decrement(s.alive)))
    {
      assert shards[shardIndex] in shards;
      shards[shardIndex].DecrementAliveValuesCnt();
      OneShardChanged(shardIndex);
    }

    method WriteValue(shardIndex: nat, key: Key, value: Value) returns (entry: Option<Entry>)
      requires Sound() && shardIndex < |shards| && ShardInv(State().shards[shardIndex])
      modifies shards, set s | s in shards :: s.filter
      ensures entry.None? <==> Overflows(old(State()).shards[shardIndex], key)
      ensures entry.Some? ==>
                var (s, ptr) := ShardModel.WriteValue(old(State()).shards[shardIndex], key, value);
                && Sound() && entry.value == Entry(key, ptr)
                && State() == RowWithShard(old(State()), shardIndex, s)
    {
      assert shards[shardIndex] in shards;
      entry := shards[shardIndex].WriteValue(key, value);
      if entry.Some? {
        OneShardChanged(shardIndex);
      }
    }

    method RemoveEntry(shardIndex: nat, key: Key) returns (entry: Entry)
      requires Sound() && shardIndex < |shards|
      modifies shards
      ensures Sound() && entry.key == key
      ensures State() == RowWithShard(old(State()), shardIndex,
                                      ShardModel.RemoveEntry(old(State()).shards[shardIndex], key))
    {
      assert shards[shardIndex] in shards;
      entry := shards[shardIndex].RemoveEntry(key);
      OneShardChanged(shardIndex);
    }

    method ReadValue(shardIndex: nat, key: Key) returns (entry: Entry, value: Option<Value>)
      requires Sound() && shardIndex < |shards|
      ensures entry == Entry(key, Lookup(State().shards[shardIndex].index, key))
      ensures value == Stored(State().shards[shardIndex], key)
    {
      assert shards[shardIndex] in shards;
      entry, value := shards[shardIndex].ReadValue(key);
    }

    /** The flag of a cached pointer is set through the reference to it. */
    method SetValuePresent(slot: nat, isPresent: bool)
      requires Sound() && slot < cacheMap.data.Length
      requires cacheMap.data[slot].ptr.IsPresent() || cacheMap.data[slot].ptr.IsDeleted()
      requires cacheMap.data[slot].ptr.GetIndex() <= MAX_PTR_INDEX
      modifies cacheMap.data
      ensures Sound()
      ensures var slots := old(State()).slots;
              State() == old(State()).(
                slots := slots[slot := Entry(slots[slot].key, slots[slot].ptr.SetValuePresent(isPresent))])
    {
      cacheMap.SetValuePresent(slot, isPresent);
      assert States(shards) == old(States(shards));
    }

    // ----- The three calls -----

    /** The call was a step of the store from this state, with these draws. */
    ghost predicate Took(rs: RowStore, op: Op, status: Status, d: Draw)
      reads this, cacheMap, cacheMap.data, shards, set s | s in shards :: s.filter
    {
      && RowInv(cfg, rs)
      && match status
         case Completed => Sound() && RowStep(cfg, rs, op, d, RowRunning(State()))
         case Terminated(reason) => RowStep(cfg, rs, op, d, RowStopped(reason))
    }

    /** What a completed call has done: the store is valid, every key has the value it should
        have unless its removal was lost, and then the one its shard kept, and right counters stay
        right exactly if no removal was lost. */
    ghost predicate Did(rs: RowStore, op: Op, d: Draw)
      requires RowInv(cfg, rs) && (Puts(Abs(rs), op) ==> ValidDrop(rs.slots, d.drop))
      reads this, cacheMap, cacheMap.data, shards, set s | s in shards :: s.filter
    {
      && Valid() && |shards| == |rs.shards| && RowDoes(cfg, rs, op, d, State())
      && (MeansAfter(cfg, Abs(rs), op, Abs(State())) <==> !RowLoses(cfg, rs, op, d, State()))
      && (CountersOk(Abs(rs)) ==> (CountersOk(Abs(State())) <==> !RowLoses(cfg, rs, op, d, State())))
    }

    /** A shard that was not there before is a new object. */
    twostate predicate Renewed()
      reads this
    {
      forall s :: s in shards && s !in old(shards) ==> fresh(s) && fresh(s.filter)
    }

    lemma StepDid(rs: RowStore, op: Op, d: Draw)
      requires Took(rs, op, Completed, d)
      ensures Did(rs, op, d)
    {
      RowStepIsRight(cfg, rs, op, d, State());
    }

    method Find(key: Key) returns (slot: nat)
      requires Sound()
      ensures AnswersFor(State().slots, slot, key)
    {
      var ok;
      ok, slot := cacheMap.Get(key);
    }

    method Add(key: Key, value: Value) returns (status: Status, ghost d: Draw)
      requires Valid()
      modifies this`shards, cacheMap, cacheMap.data, shards, set s | s in shards :: s.filter
      ensures Took(old(State()), Op.Add(key, value), status, d)
      ensures status.Completed? ==> Did(old(State()), Op.Add(key, value), d) && Renewed()
    {
      ghost var rs := State();
      var slot := Find(key);
      assert State() == rs;
      status, d := TakeAdd(slot, key, value);
      if status.Completed? {
        StepDid(rs, Op.Add(key, value), d);
      }
    }

    method TakeAdd(slot: nat, key: Key, value: Value) returns (status: Status, ghost d: Draw)
      requires Valid() && AnswersFor(State().slots, slot, key)
      modifies this`shards, cacheMap, cacheMap.data, shards, set s | s in shards :: s.filter
      ensures Took(old(State()), Op.Add(key, value), status, d)
      ensures status.Completed? ==> Renewed()
    {
      var ptr := cacheMap.data[slot].ptr;
      if ptr.IsPresent() || ptr.IsDeleted() {
        d := AddCached(key, slot, value);
        status := Completed;
      } else {
        status, d := AddToShard(key, value);
      }
    }

    /** An add that finds a slot for the key in the cache. */
    method AddCached(key: Key, slot: nat, value: Value) returns (ghost d: Draw)
      requires Valid() && AnswersFor(State().slots, slot, key)
      requires State().slots[slot].ptr.IsPresent() || State().slots[slot].ptr.IsDeleted()
      modifies shards, cacheMap.data
      ensures Took(old(State()), Op.Add(key, value), Completed, d)
    {
      if cacheMap.data[slot].ptr.IsPresent() {
        d := OverwriteCached(key, slot, value);
      } else {
        d := ReviveCached(key, slot, value);
      }
    }

    method OverwriteCached(key: Key, slot: nat, value: Value) returns (ghost d: Draw)
      requires Valid() && AnswersFor(State().slots, slot, key) && State().slots[slot].ptr.IsPresent()
      modifies shards
      ensures Took(old(State()), Op.Add(key, value), Completed, d)
    {
      d := Draw(None, [], []);
      StepByOverwrite(cfg, State(), key, value, d, slot);
      WriteValueDirectly(Home(cfg.hash, key, |shards|), cacheMap.data[slot].ptr, value);
    }

    method ReviveCached(key: Key, slot: nat, value: Value) returns (ghost d: Draw)
      requires Valid() && AnswersFor(State().slots, slot, key) && State().slots[slot].ptr.IsDeleted()
      modifies shards, cacheMap.data
      ensures Took(old(State()), Op.Add(key, value), Completed, d)
    {
      d := Draw(None, [], []);
      StepByRevive(cfg, State(), key, value, d, slot);
      WriteAndRevive(key, slot, value);
    }

    method WriteAndRevive(key: Key, slot: nat, value: Value)
      requires Sound() && slot < cacheMap.data.Length
      requires cacheMap.data[slot].key == key && cacheMap.data[slot].ptr.IsDeleted()
      requires var values := State().shards[Home(cfg.hash, key, |shards|)].values;
               cacheMap.data[slot].ptr.GetIndex() < |values| <= SHARD_CAPACITY
      modifies shards, cacheMap.data
      ensures Sound()
      ensures var rs, i := old(State()), Home(cfg.hash, key, |shards|);
              var written := RowWithShard(rs, i, WriteDirectly(rs.shards[i], rs.slots[slot].ptr, value));
              State() == MarkedBack(written, i, slot)
    {
      var shardIndex := Home(cfg.hash, key, |shards|);
      WriteValueDirectly(shardIndex, cacheMap.data[slot].ptr, value);
      MarkPresent(shardIndex, slot);
    }

    /** The mark of a removal is taken back, and the value counted again. */
    method MarkPresent(shardIndex: nat, slot: nat)
      requires Sound() && slot < cacheMap.data.Length && shardIndex < |shards| && cacheMap.data[slot].ptr.IsDeleted()
      requires cacheMap.data[slot].ptr.GetIndex() <= MAX_PTR_INDEX
      modifies shards, cacheMap.data
      ensures Sound() && State() == MarkedBack(old(State()), shardIndex, slot)
    {
      SetValuePresent(slot, true);
      IncrementAliveValuesCnt(shardIndex);
    }

    method AddToShard(key: Key, value: Value) returns (status: Status, ghost d: Draw)
      requires Valid() && Puts(Abs(State()), Op.Add(key, value))
      modifies this`shards, cacheMap, cacheMap.data, shards, set s | s in shards :: s.filter
      ensures Took(old(State()), Op.Add(key, value), status, d)
      ensures status.Completed? ==> Renewed()
    {
      ghost var rs := State();
      var shardIndex := Home(cfg.hash, key, |shards|);
      var entry := WriteValue(shardIndex, key, value);
      if entry.None? {
        ghost var drop := SomeDropOf(cfg, rs);
        status, d := Terminated(ShardOverflow), Draw(drop, [], []);
        StepByOverflow(cfg, rs, Op.Add(key, value), d);
        return;
      }
      status, d := FinishMiss(entry.value, rs, Op.Add(key, value));
    }

    method Get(key: Key) returns (status: Status, value: Option<Value>, ghost d: Draw)
      requires Valid()
      modifies this`shards, cacheMap, cacheMap.data, shards
      ensures Took(old(State()), Op.Get(key), status, d)
      ensures status.Completed? ==> value == Meaning(cfg, old(Abs(State())), key)
      ensures status.Completed? ==> Did(old(State()), Op.Get(key), d) && Renewed()
    {
      ghost var rs := State();
      var slot := Find(key);
      assert State() == rs;
      status, value, d := TakeGet(slot, key);
      if status.Completed? {
        StepDid(rs, Op.Get(key), d);
      }
    }

    method TakeGet(slot: nat, key: Key) returns (status: Status, value: Option<Value>, ghost d: Draw)
      requires Valid() && AnswersFor(State().slots, slot, key)
      modifies this`shards, cacheMap, cacheMap.data, shards
      ensures Took(old(State()), Op.Get(key), status, d)
      ensures value == Meaning(cfg, old(Abs(State())), key)
      ensures status.Completed? ==> Renewed()
    {
      ghost var rs := State();
      var ptr := cacheMap.data[slot].ptr;
      if ptr.IsEmpty() {
        status, value, d := GetFromShard(key);
      } else {
        value, d := GetKnown(slot, key, rs);
        status := Completed;
      }
    }

    method GetKnown(slot: nat, key: Key, ghost rs: RowStore) returns (value: Option<Value>, ghost d: Draw)
      requires Valid() && rs == State() && AnswersFor(rs.slots, slot, key) && !rs.slots[slot].IsFree()
      ensures Took(rs, Op.Get(key), Completed, d)
      ensures value == Meaning(cfg, Abs(rs), key)
    {
      value := GetCached(key, cacheMap.data[slot].ptr);
      assert State() == rs;
      d := Draw(None, [], []);
      StepByKnown(cfg, rs, Op.Get(key), d, slot);
    }

    /** A get that finds the key in the cache. */
    method GetCached(key: Key, ptr: Ptr) returns (value: Option<Value>)
      requires Valid() && !ptr.IsEmpty() && ptr == Lookup(Contents(State().slots), key)
      ensures value == Meaning(cfg, Abs(State()), key)
    {
      value := None;
      if ptr.IsPresent() {
        CachedIsIndexed(cfg, Abs(State()), key);
        var v := shards[Home(cfg.hash, key, |shards|)].ReadValueDirectly(ptr);
        value := Some(v);
      }
    }

    method GetFromShard(key: Key) returns (status: Status, value: Option<Value>, ghost d: Draw)
      requires Valid() && Puts(Abs(State()), Op.Get(key))
      modifies this`shards, cacheMap, cacheMap.data, shards
      ensures value == Meaning(cfg, old(Abs(State())), key)
      ensures Took(old(State()), Op.Get(key), status, d)
      ensures status.Completed? ==> Renewed()
    {
      var e;
      e, value := ReadEntry(key);
      status, d := FinishMiss(e, State(), Op.Get(key));
    }

    /** The value of a key the cache does not know, and the entry to cache for it. */
    method ReadEntry(key: Key) returns (e: Entry, value: Option<Value>)
      requires Valid() && Puts(Abs(State()), Op.Get(key))
      ensures value == Meaning(cfg, Abs(State()), key)
      ensures var i := ShardOf(cfg, Abs(State()), key);
              var (s, ptr) := WriteOf(State().shards[i], Op.Get(key));
              State() == RowWithShard(State(), i, s) && e == Entry(key, ptr)
    {
      var newEntry;
      newEntry, value := ReadValue(Home(cfg.hash, key, |shards|), key);
      SameShard(State(), Home(cfg.hash, key, |shards|));
      e := if newEntry.ptr.IsPresent() then newEntry else Entry(key, NONEXISTENT_PTR);
    }

    method Remove(key: Key) returns (status: Status, ghost d: Draw)
      requires Valid()
      modifies this`shards, cacheMap, cacheMap.data, shards
      ensures Took(old(State()), Op.Remove(key), status, d)
      ensures status.Completed? ==> Did(old(State()), Op.Remove(key), d) && Renewed()
    {
      ghost var rs := State();
      var slot := Find(key);
      assert State() == rs;
      status, d := TakeRemove(slot, key);
      if status.Completed? {
        StepDid(rs, Op.Remove(key), d);
      }
    }

    method TakeRemove(slot: nat, key: Key) returns (status: Status, ghost d: Draw)
      requires Valid() && AnswersFor(State().slots, slot, key)
      modifies this`shards, cacheMap, cacheMap.data, shards
      ensures Took(old(State()), Op.Remove(key), status, d)
      ensures status.Completed? ==> Renewed()
    {
      var ptr := cacheMap.data[slot].ptr;
      if ptr.IsPresent() {
        status, d := RemoveCached(key, slot);
      } else if ptr.IsEmpty() {
        status, d := RemoveFromShard(key);
      } else {
        status, d := Completed, Draw(None, [], []);
        StepByKnown(cfg, State(), Op.Remove(key), d, slot);
      }
    }

    method RemoveCached(key: Key, slot: nat) returns (status: Status, ghost d: Draw)
      requires Valid() && AnswersFor(State().slots, slot, key) && State().slots[slot].ptr.IsPresent()
      modifies this`shards, cacheMap, cacheMap.data, shards
      ensures Took(old(State()), Op.Remove(key), status, d)
      ensures status.Completed? ==> Renewed()
    {
      ghost var rs := State();
      CachedIsIndexed(cfg, Abs(rs), key);
      MarkedKeepsInv(cfg, rs, key, slot);
      status, d := MarkAndRebuild(key, slot);
      StepByMark(cfg, rs, key, slot, d, if status.Completed? then RowRunning(State()) else RowStopped(status.reason));
    }

    method MarkAndRebuild(key: Key, slot: nat) returns (status: Status, ghost d: Draw)
      requires Sound() && slot < cacheMap.data.Length
      requires cacheMap.data[slot].key == key && cacheMap.data[slot].ptr.IsPresent()
      requires cacheMap.data[slot].ptr.GetIndex() <= MAX_PTR_INDEX && RowInv(cfg, Marked(cfg, State(), key, slot))
      modifies this`shards, cacheMap, cacheMap.data, shards
      ensures Finished(Marked(cfg, old(State()), key, slot), Some(Home(cfg.hash, key, |old(shards)|)), status, d)
      ensures status.Completed? ==> Renewed()
    {
      MarkRemoved(key, slot);
      status, d := RebuildIfRequired(Home(cfg.hash, key, |shards|));
    }

    /** Lazy deletion: the mark in the cache and the counter, and nothing on disk. */
    method MarkRemoved(key: Key, slot: nat)
      requires Sound() && slot < cacheMap.data.Length
      requires cacheMap.data[slot].key == key && cacheMap.data[slot].ptr.IsPresent()
      requires cacheMap.data[slot].ptr.GetIndex() <= MAX_PTR_INDEX
      modifies cacheMap.data, shards
      ensures Sound() && State() == Marked(cfg, old(State()), key, slot)
    {
      SetValuePresent(slot, false);
      DecrementAliveValuesCnt(Home(cfg.hash, key, |shards|));
    }

    method RemoveFromShard(key: Key) returns (status: Status, ghost d: Draw)
      requires Valid() && Puts(Abs(State()), Op.Remove(key))
      modifies this`shards, cacheMap, cacheMap.data, shards
      ensures Took(old(State()), Op.Remove(key), status, d)
      ensures status.Completed? ==> Renewed()
    {
      ghost var rs := State();
      var newEntry := RemoveEntry(Home(cfg.hash, key, |shards|), key);
      status, d := FinishMiss(Entry(newEntry.key, NONEXISTENT_PTR), rs, Op.Remove(key));
    }
  }

  lemma SomeDropOf(cfg: Config, rs: RowStore) returns (drop: Option<nat>)
    requires RowInv(cfg, rs)
    ensures ValidDrop(rs.slots, drop)
  {
    NeverFull(cfg.hash, rs.slots);
    drop := SomeDrop(rs.slots);
  }

  lemma SameShard(rs: RowStore, i: nat)
    requires i < |rs.shards|
    ensures RowWithShard(rs, i, rs.shards[i]) == rs
  {
    assert rs.shards[i := rs.shards[i]] == rs.shards;
  }

  lemma CanBeRebuilt(cfg: Config, st: Store, i: nat)
    requires Linked(cfg, st) && i < |st.shards|
    ensures Rebuildable(st.shards[i], st.cache)
  {
    forall k | k in st.shards[i].index && k in st.cache
      ensures Coherent(st.cache[k], st.shards[i].index[k])
    {
      assert ShardOf(cfg, st, k) == i;
    }
  }

  lemma GoneStops(cfg: Config, rs: RowStore, i: nat, d: Draw)
    requires RowInv(cfg, rs) && i < |rs.shards| && Enumerates(d.entries, rs.shards[i].index)
    requires cfg.asserts && SomeKnownGone(d.entries, Contents(rs.slots))
    ensures RowRebuild(cfg, rs, i, d, RowStopped(IndexAssertion))
  {
    KnownGoneIsSome(Abs(rs), i, d.entries);
  }

  lemma WriteBackEnds(cfg: Config, rs: RowStore, i: nat, d: Draw, s: ShardState, newEntries: seq<Entry>, stopped: bool)
    requires RowInv(cfg, rs) && i < |rs.shards| && Built(cfg, rs, i, d.entries, s, newEntries)
    requires RowWriteBack(cfg, rs.slots, newEntries, d.drops, stopped)
    ensures stopped ==> RowRebuild(cfg, rs, i, d, RowStopped(WriteBackAssertion))
    ensures !stopped ==>
              RowRebuild(cfg, rs, i, d, RowRunning(RowStore(RowWritten(cfg.hash, rs.slots, newEntries, d.drops),
                                                            rs.shards[i := s])))
  {
    KnownGoneIsSome(Abs(rs), i, d.entries);
  }

  lemma KnownGoneIsSome(st: Store, i: nat, entries: seq<Entry>)
    requires i < |st.shards| && Enumerates(entries, st.shards[i].index)
    ensures KnownGone(st, i) <==> SomeKnownGone(entries, st.cache)
  {
    ContentsRepresents(entries);
    if KnownGone(st, i) {
      var k :| k in st.shards[i].index && Lookup(st.cache, k).IsNonexistent();
      assert Holds(entries, k);
    }
  }
}
