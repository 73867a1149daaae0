/** What the rebuild of a shard does to the store: the compaction, the write-back of the
    rewritten pointers into the cache, and what that write-back can lose. */
module StoreRebuild {
  import opened KeyValueTypes
  import opened LinearProbing
  import opened ShardModel
  import opened RebuildModel
  import opened StoreModel
  import opened StoreInvariant
  import opened StoreSteps

  // ----- The compaction -----

  function Compacted(st: Store, i: nat, entries: seq<Entry>): Rebuilt
    requires i < |st.shards| && Readable(entries, |st.shards[i].values|)
  {
    RebuildFrom(st.shards[i].values, st.cache, entries)
  }

  /** The new index holds exactly the live keys, so as many as a right counter says. */
  lemma CompactionKeepsLiveKeys(cfg: Config, st: Store, i: nat, entries: seq<Entry>)
    requires Linked(cfg, st) && i < |st.shards| && Enumerates(entries, st.shards[i].index)
    ensures Readable(entries, |st.shards[i].values|)
    ensures Carries(st.shards[i].values, st.cache, st.shards[i].index, Compacted(st, i, entries))
    ensures Compacted(st, i, entries).index.Keys == LiveKeys(st.cache, st.shards[i].index)
    ensures |Compacted(st, i, entries).index| == |LiveKeys(st.cache, st.shards[i].index)| <= SHARD_CAPACITY
    ensures CountersOk(st) ==> |Compacted(st, i, entries).index| == st.shards[i].alive
  {
    var s := st.shards[i];
    ShardIsReadable(s, entries);
    RebuildCarries(s.values, st.cache, entries);
    var r := Compacted(st, i, entries);
    KeptAreLive(cfg, st, i, r);
    SubsetIsSmaller(LiveKeys(st.cache, s.index), s.index.Keys);
    assert |r.index| == |r.index.Keys|;
  }

  /** To keep an entry is to find it live. */
  lemma KeptAreLive(cfg: Config, st: Store, i: nat, r: Rebuilt)
    requires Linked(cfg, st) && i < |st.shards|
    requires CarriesIndex(st.shards[i].values, st.cache, st.shards[i].index, r)
    ensures r.index.Keys == LiveKeys(st.cache, st.shards[i].index)
  {
    var index := st.shards[i].index;
    forall k
      ensures k in r.index <==> k in LiveKeys(st.cache, index)
    {
      if k in index && k in st.cache {
        assert Coherent(st.cache[k], IndexPtr(cfg, st, k));
      }
    }
  }

  /** A rebuild is asked for only when few values are live, so the new table never grows
      beyond its initial size, and the new shard asks for no rebuild. */
  lemma RebuildIsSmall(cfg: Config, st: Store, i: nat, entries: seq<Entry>)
    requires Linked(cfg, st) && CountersOk(st)
    requires i < |st.shards| && Enumerates(entries, st.shards[i].index) && RebuildRequired(st.shards[i])
    ensures Readable(entries, |st.shards[i].values|)
    ensures var r := Compacted(st, i, entries);
            && |r.index| == |r.values| <= 22
            && 3 * |r.index| <= 2 * STORAGE_HASH_TABLE_INITIAL_SIZE
            && !RebuildRequired(RebuiltShard(r))
  {
    CompactionKeepsLiveKeys(cfg, st, i, entries);
  }

  /** The shard and the cache after a rebuild whose write-back overwrites in place: the index
      is exactly the live keys with their values, and the cache agrees with it. */
  ghost predicate Ideal(cfg: Config, st: Store, i: nat, s: ShardState, cache: map<Key, Ptr>)
    requires Linked(cfg, st) && i < |st.shards|
  {
    && ShardInv(s) && s.alive == |s.index|
    && s.index.Keys == LiveKeys(st.cache, st.shards[i].index)
    && (forall k :: k in s.index ==> s.index[k].IsPresent())
    && (forall k :: k in s.index ==>
          s.values[s.index[k].GetIndex()] == st.shards[i].values[st.shards[i].index[k].GetIndex()])
    && (forall k :: k in cache ==> !cache[k].IsEmpty())
    && (forall k :: ShardOf(cfg, st, k) != i ==> Lookup(cache, k) == Lookup(st.cache, k))
    && (forall k :: ShardOf(cfg, st, k) == i ==> Agrees(Lookup(cache, k), s.index, k))
  }

  /** The cache knows nothing of the key, or what the new index says. */
  predicate Agrees(cached: Ptr, index: map<Key, Ptr>, key: Key) {
    cached.IsEmpty() || cached == (if key in index then index[key] else NONEXISTENT_PTR)
  }

  lemma CompactionIsIdeal(cfg: Config, st: Store, i: nat, entries: seq<Entry>)
    requires Linked(cfg, st) && i < |st.shards| && Enumerates(entries, st.shards[i].index)
    ensures Readable(entries, |st.shards[i].values|)
    ensures var r := Compacted(st, i, entries);
            Ideal(cfg, st, i, RebuiltShard(r), st.cache + Contents(r.updates))
  {
    CompactionKeepsLiveKeys(cfg, st, i, entries);
    var r := Compacted(st, i, entries);
    var cache := st.cache + Contents(r.updates);
    RebuiltShardIsOk(cfg, st, i, r);
    forall k
      ensures k in cache ==> !cache[k].IsEmpty()
      ensures ShardOf(cfg, st, k) != i ==> Lookup(cache, k) == Lookup(st.cache, k)
      ensures ShardOf(cfg, st, k) == i ==> Agrees(Lookup(cache, k), r.index, k)
    {
      WrittenBack(cfg, st, i, r, k);
    }
  }

  lemma RebuiltShardIsOk(cfg: Config, st: Store, i: nat, r: Rebuilt)
    requires Linked(cfg, st) && i < |st.shards| && |r.index| <= SHARD_CAPACITY
    requires CarriesIndex(st.shards[i].values, st.cache, st.shards[i].index, r)
    ensures var s := RebuiltShard(r);
            && ShardInv(s) && s.alive == |s.index|
            && (forall k :: k in s.index ==> s.index[k].IsPresent())
            && (forall k :: k in s.index ==>
                  s.values[s.index[k].GetIndex()] == st.shards[i].values[st.shards[i].index[k].GetIndex()])
  {
  }

  lemma WrittenBack(cfg: Config, st: Store, i: nat, r: Rebuilt, k: Key)
    requires Linked(cfg, st) && i < |st.shards|
    requires Carries(st.shards[i].values, st.cache, st.shards[i].index, r)
    requires r.index.Keys == LiveKeys(st.cache, st.shards[i].index)
    ensures var cache := st.cache + Contents(r.updates);
            && (k in cache ==> k in st.cache && !cache[k].IsEmpty())
            && (ShardOf(cfg, st, k) != i ==> Lookup(cache, k) == Lookup(st.cache, k))
            && (ShardOf(cfg, st, k) == i ==> Agrees(Lookup(cache, k), r.index, k))
  {
    if ShardOf(cfg, st, k) == i {
      OwnWrittenBack(cfg, st, i, r, k);
    } else {
      assert k !in st.shards[i].index;
    }
    OnlyCachedWritten(st.shards[i].values, st.cache, st.shards[i].index, r, k);
  }

  lemma OnlyCachedWritten(values: seq<Value>, cache: map<Key, Ptr>, index: map<Key, Ptr>, r: Rebuilt, k: Key)
    requires Carries(values, cache, index, r) && forall l :: l in cache ==> !cache[l].IsEmpty()
    ensures k in cache + Contents(r.updates) ==> k in cache && !(cache + Contents(r.updates))[k].IsEmpty()
    ensures k !in index ==> Lookup(cache + Contents(r.updates), k) == Lookup(cache, k)
  {
  }

  lemma OwnWrittenBack(cfg: Config, st: Store, i: nat, r: Rebuilt, k: Key)
    requires Linked(cfg, st) && i < |st.shards| && ShardOf(cfg, st, k) == i
    requires Carries(st.shards[i].values, st.cache, st.shards[i].index, r)
    requires r.index.Keys == LiveKeys(st.cache, st.shards[i].index)
    ensures Agrees(Lookup(st.cache + Contents(r.updates), k), r.index, k)
  {
    var m := Contents(r.updates);
    assert k in r.index <==> k in LiveKeys(st.cache, st.shards[i].index);
    if k in st.cache {
      assert Coherent(st.cache[k], Lookup(st.shards[i].index, k));
    }
    assert Lookup(st.cache + m, k) == if k in m then m[k] else Lookup(st.cache, k);
  }

  function Rebuilding(st: Store, i: nat, s: ShardState, cache: map<Key, Ptr>): Store
    requires i < |st.shards|
  {
    Store(cache, st.shards[i := s])
  }

  lemma IdealLiveKeys(cfg: Config, st: Store, i: nat, s: ShardState, cache: map<Key, Ptr>)
    requires Linked(cfg, st) && i < |st.shards| && Ideal(cfg, st, i, s, cache)
    ensures LiveKeys(cache, s.index) == s.index.Keys
  {
    forall k | k in s.index
      ensures Live(cache, s.index, k)
    {
      assert k in st.shards[i].index && ShardOf(cfg, st, k) == i;
      assert Agrees(Lookup(cache, k), s.index, k);
    }
  }

  lemma IdealLiveKeysElsewhere(cfg: Config, st: Store, i: nat, s: ShardState, cache: map<Key, Ptr>, j: nat)
    requires Linked(cfg, st) && i < |st.shards| && Ideal(cfg, st, i, s, cache)
    requires j < |st.shards| && j != i
    ensures LiveKeys(cache, st.shards[j].index) == LiveKeys(st.cache, st.shards[j].index)
  {
    forall k | k in st.shards[j].index
      ensures Lookup(cache, k) == Lookup(st.cache, k)
    {
      assert ShardOf(cfg, st, k) == j;
    }
    LiveKeysFollowRemovals(cache, st.cache, st.shards[j].index);
  }

  lemma IdealKeepsCounters(cfg: Config, st: Store, i: nat, s: ShardState, cache: map<Key, Ptr>)
    requires Linked(cfg, st) && CountersOk(st) && i < |st.shards| && Ideal(cfg, st, i, s, cache)
    ensures CountersOk(Rebuilding(st, i, s, cache))
  {
    IdealLiveKeys(cfg, st, i, s, cache);
    forall j | 0 <= j < |st.shards| && j != i
      ensures LiveKeys(cache, st.shards[j].index) == LiveKeys(st.cache, st.shards[j].index)
    {
      IdealLiveKeysElsewhere(cfg, st, i, s, cache, j);
    }
  }

  lemma IdealStaysLinked(cfg: Config, st: Store, i: nat, s: ShardState, cache: map<Key, Ptr>)
    requires Linked(cfg, st) && i < |st.shards| && Ideal(cfg, st, i, s, cache)
    ensures Linked(cfg, Rebuilding(st, i, s, cache))
  {
    var after := Rebuilding(st, i, s, cache);
    assert forall k :: ShardOf(cfg, after, k) == ShardOf(cfg, st, k);
    forall k | k in cache
      ensures Coherent(cache[k], IndexPtr(cfg, after, k))
    {
      if ShardOf(cfg, st, k) != i {
        assert Lookup(cache, k) == Lookup(st.cache, k);
      } else {
        assert Agrees(Lookup(cache, k), s.index, k);
      }
    }
  }

  /** Compaction preserves meaning. */
  lemma IdealKeepsMeaning(cfg: Config, st: Store, i: nat, s: ShardState, cache: map<Key, Ptr>)
    requires Linked(cfg, st) && i < |st.shards| && Ideal(cfg, st, i, s, cache)
    ensures SameMeaning(cfg, st, Rebuilding(st, i, s, cache))
  {
    IdealStaysLinked(cfg, st, i, s, cache);
    forall k
      ensures Meaning(cfg, Rebuilding(st, i, s, cache), k) == Meaning(cfg, st, k)
    {
      if ShardOf(cfg, st, k) == i {
        IdealMeansTheSame(cfg, st, i, s, cache, k);
      }
    }
  }

  lemma IdealMeansTheSame(cfg: Config, st: Store, i: nat, s: ShardState, cache: map<Key, Ptr>, k: Key)
    requires Linked(cfg, st) && i < |st.shards| && Ideal(cfg, st, i, s, cache)
    requires Linked(cfg, Rebuilding(st, i, s, cache)) && ShardOf(cfg, st, k) == i
    ensures Meaning(cfg, Rebuilding(st, i, s, cache), k) == Meaning(cfg, st, k)
  {
    MeaningIsLive(cfg, st, k);
    MeaningIsLive(cfg, Rebuilding(st, i, s, cache), k);
    assert k in s.index <==> k in LiveKeys(st.cache, st.shards[i].index);
    assert Agrees(Lookup(cache, k), s.index, k);
  }

  // ----- The write-back -----

  ghost predicate Submap(a: map<Key, Ptr>, b: map<Key, Ptr>) {
    forall k :: k in a ==> k in b && a[k] == b[k]
  }

  /** Whatever the write-back displaces, a pointer it leaves in the cache is the right one. */
  lemma {:induction false} WriteBackIsSubmap(cache: map<Key, Ptr>, updates: seq<Entry>, m: map<Key, Ptr>,
                                             victims: seq<Option<Key>>)
    requires Enumerates(updates, m) && |updates| == |victims| && m.Keys <= cache.Keys
    ensures Submap(AfterWriteBack(cache, updates, victims), cache + m)
    ensures NoneDisplaced(victims) ==> AfterWriteBack(cache, updates, victims) == cache + m
  {
    if updates == [] {
      assert cache + m == cache;
    } else {
      var last := |updates| - 1;
      NewToEarlier(updates, m, last);
      assert updates[..last + 1] == updates;
      EnumeratesItself(updates, m, last);
      WriteBackIsSubmap(cache, updates[..last], Contents(updates[..last]), victims[..last]);
    }
  }

  /** Put after put the load of the cache stays within its bound. */
  lemma {:induction false} WriteBackKeepsLoad(cacheSize: nat, cache: map<Key, Ptr>, updates: seq<Entry>,
                                              victims: seq<Option<Key>>)
    requires |updates| == |victims| && ValidVictims(cacheSize, cache, updates, victims)
    requires 3 * |cache| <= 2 * cacheSize + 3
    ensures 3 * |AfterWriteBack(cache, updates, victims)| <= 2 * cacheSize + 3
  {
    if updates != [] {
      var last := |updates| - 1;
      WriteBackKeepsLoad(cacheSize, cache, updates[..last], victims[..last]);
      PutKeepsLoad(cacheSize, AfterWriteBack(cache, updates[..last], victims[..last]), updates[last], victims[last]);
    }
  }

  lemma PutKeepsLoad(cacheSize: nat, cache: map<Key, Ptr>, e: Entry, victim: Option<Key>)
    requires ValidVictim(cacheSize, cache, victim)
    requires 3 * |cache| <= 2 * cacheSize + 3
    ensures 3 * |CachePut(cache, e, victim)| <= 2 * cacheSize + 3
  {
    if victim.Some? {
      assert |cache - {victim.value}| == |cache| - 1;
    }
  }

  /** Overwriting keys that are cached displaces nothing exactly when there is nothing to
      write or the cache is below its load to begin with. */
  lemma {:induction false} WriteBackDisplacesNothing(cacheSize: nat, cache: map<Key, Ptr>, updates: seq<Entry>,
                                                     m: map<Key, Ptr>, victims: seq<Option<Key>>)
    requires Enumerates(updates, m) && m.Keys <= cache.Keys
    requires |updates| == |victims| && ValidVictims(cacheSize, cache, updates, victims)
    ensures NoneDisplaced(victims) <==> updates == [] || !Heavy(cacheSize, cache)
    ensures NoneDisplaced(victims) ==> |AfterWriteBack(cache, updates, victims)| == |cache|
  {
    if updates != [] {
      var last := |updates| - 1;
      AllButLast(updates, m, cache.Keys);
      WriteBackDisplacesNothing(cacheSize, cache, updates[..last], Contents(updates[..last]), victims[..last]);
      if NoneDisplaced(victims[..last]) {
        LastIsDisplaced(cacheSize, cache, updates, victims);
      }
      if NoneDisplaced(victims) {
        InPlaceKeepsSize(cache, updates, m, victims);
      }
    }
  }

  lemma AllButLast(updates: seq<Entry>, m: map<Key, Ptr>, keys: set<Key>)
    requires Enumerates(updates, m) && updates != [] && m.Keys <= keys
    ensures var last := |updates| - 1;
            && Enumerates(updates[..last], Contents(updates[..last])) && Contents(updates[..last]).Keys <= keys
            && updates[last].key !in Contents(updates[..last])
            && m == Contents(updates[..last])[updates[last].key := updates[last].ptr]
  {
    var last := |updates| - 1;
    NewToEarlier(updates, m, last);
    assert updates[..last + 1] == updates;
    EnumeratesItself(updates, m, last);
  }

  /** As long as nothing was displaced the next put displaces exactly under the first one's load. */
  lemma LastIsDisplaced(cacheSize: nat, cache: map<Key, Ptr>, updates: seq<Entry>, victims: seq<Option<Key>>)
    requires |updates| == |victims| && updates != [] && ValidVictims(cacheSize, cache, updates, victims)
    requires var last := |updates| - 1;
             NoneDisplaced(victims[..last]) && |AfterWriteBack(cache, updates[..last], victims[..last])| == |cache|
    ensures NoneDisplaced(victims) <==> !Heavy(cacheSize, cache)
  {
    var last := |updates| - 1;
    assert forall j :: 0 <= j < last ==> victims[..last][j] == victims[j];
  }

  lemma InPlaceKeepsSize(cache: map<Key, Ptr>, updates: seq<Entry>, m: map<Key, Ptr>, victims: seq<Option<Key>>)
    requires Enumerates(updates, m) && m.Keys <= cache.Keys && |updates| == |victims| && NoneDisplaced(victims)
    ensures |AfterWriteBack(cache, updates, victims)| == |cache|
  {
    WriteBackIsSubmap(cache, updates, m, victims);
    assert (cache + m).Keys == cache.Keys;
    assert |cache + m| == |(cache + m).Keys|;
  }

  // ----- What the write-back can lose -----

  /** A removal of this key, of another shard, was displaced, and nothing pushed it. */
  predicate Forgotten(cfg: Config, st: Store, i: nat, cache: map<Key, Ptr>, k: Key)
    requires |st.shards| > 0
  {
    Lookup(st.cache, k).IsDeleted() && ShardOf(cfg, st, k) != i && k !in cache
  }

  ghost predicate RemovalLost(cfg: Config, st: Store, i: nat, cache: map<Key, Ptr>)
    requires |st.shards| > 0
  {
    exists k :: Forgotten(cfg, st, i, cache, k)
  }

  /** Forgetting cached pointers breaks nothing but counters. */
  lemma DropsStayLinked(cfg: Config, st: Store, cache: map<Key, Ptr>)
    requires Linked(cfg, st) && Submap(cache, st.cache)
    ensures Linked(cfg, st.(cache := cache))
  {
    assert forall k :: ShardOf(cfg, st.(cache := cache), k) == ShardOf(cfg, st, k);
  }

  lemma DropsKeepCounters(cfg: Config, st: Store, cache: map<Key, Ptr>)
    requires Linked(cfg, st) && CountersOk(st) && Submap(cache, st.cache)
    requires forall k :: Lookup(st.cache, k).IsDeleted() ==> k in cache
    ensures CountersOk(st.(cache := cache))
  {
    forall j | 0 <= j < |st.shards|
      ensures LiveKeys(cache, st.shards[j].index) == LiveKeys(st.cache, st.shards[j].index)
    {
      LiveKeysFollowRemovals(st.cache, cache, st.shards[j].index);
    }
  }

  /** A forgotten pointer matters only if it was a removal; then the shard's value shows again. */
  lemma DropShowsKept(cfg: Config, st: Store, cache: map<Key, Ptr>, k: Key)
    requires Linked(cfg, st) && Submap(cache, st.cache)
    ensures Meaning(cfg, st.(cache := cache), k)
            == if Lookup(st.cache, k).IsDeleted() && k !in cache then Kept(cfg, st, k) else Meaning(cfg, st, k)
  {
    if k in st.cache {
      assert Coherent(st.cache[k], IndexPtr(cfg, st, k));
    }
  }

  /** The rebuild with its write-back keeps the value of every key but the forgotten ones. */
  lemma RebuildMeans(cfg: Config, st: Store, i: nat, s: ShardState, ideal: map<Key, Ptr>, cache: map<Key, Ptr>, k: Key)
    requires Linked(cfg, st) && i < |st.shards| && Ideal(cfg, st, i, s, ideal) && Submap(cache, ideal)
    ensures Meaning(cfg, Rebuilding(st, i, s, cache), k)
            == if Forgotten(cfg, st, i, cache, k) then Kept(cfg, st, k) else Meaning(cfg, st, k)
  {
    var rebuilt := Rebuilding(st, i, s, ideal);
    IdealStaysLinked(cfg, st, i, s, ideal);
    IdealKeepsMeaning(cfg, st, i, s, ideal);
    DropShowsKept(cfg, rebuilt, cache, k);
    IdealRemovals(cfg, st, i, s, ideal, k);
    assert rebuilt.(cache := cache) == Rebuilding(st, i, s, cache);
    assert Meaning(cfg, rebuilt, k) == Meaning(cfg, st, k);
  }

  /** The removals still pending after the compaction are those of the other shards. */
  lemma IdealRemovals(cfg: Config, st: Store, i: nat, s: ShardState, ideal: map<Key, Ptr>, k: Key)
    requires Linked(cfg, st) && i < |st.shards| && Ideal(cfg, st, i, s, ideal)
    ensures Lookup(ideal, k).IsDeleted() <==> ShardOf(cfg, st, k) != i && Lookup(st.cache, k).IsDeleted()
    ensures ShardOf(cfg, st, k) != i ==> Kept(cfg, Rebuilding(st, i, s, ideal), k) == Kept(cfg, st, k)
  {
    if ShardOf(cfg, st, k) == i {
      assert Agrees(Lookup(ideal, k), s.index, k);
    }
  }

  lemma RebuildCounts(cfg: Config, st: Store, i: nat, s: ShardState, ideal: map<Key, Ptr>, cache: map<Key, Ptr>)
    requires Linked(cfg, st) && CountersOk(st) && i < |st.shards|
    requires Ideal(cfg, st, i, s, ideal) && Submap(cache, ideal) && !RemovalLost(cfg, st, i, cache)
    ensures CountersOk(Rebuilding(st, i, s, cache))
  {
    IdealStaysLinked(cfg, st, i, s, ideal);
    IdealKeepsCounters(cfg, st, i, s, ideal);
    forall k | Lookup(ideal, k).IsDeleted()
      ensures k in cache
    {
      IdealRemovals(cfg, st, i, s, ideal, k);
      assert !Forgotten(cfg, st, i, cache, k);
    }
    DropsKeepCounters(cfg, Rebuilding(st, i, s, ideal), cache);
  }

  /** A forgotten key is live again, and no counter knows of it. */
  lemma RebuildMiscounts(cfg: Config, st: Store, i: nat, s: ShardState, ideal: map<Key, Ptr>, cache: map<Key, Ptr>,
                         k: Key)
    requires Linked(cfg, st) && CountersOk(st) && i < |st.shards|
    requires Ideal(cfg, st, i, s, ideal) && Submap(cache, ideal) && Forgotten(cfg, st, i, cache, k)
    ensures !CountersOk(Rebuilding(st, i, s, cache))
  {
    var j := ShardOf(cfg, st, k);
    LiveAgain(cfg, st, i, s, ideal, cache, k);
    SubsetIsSmaller(LiveKeys(st.cache, st.shards[j].index) + {k}, LiveKeys(cache, st.shards[j].index));
    assert Rebuilding(st, i, s, cache).shards[j] == st.shards[j];
  }

  /** The keys of its shard that were live still are, and so is the forgotten one. */
  lemma LiveAgain(cfg: Config, st: Store, i: nat, s: ShardState, ideal: map<Key, Ptr>, cache: map<Key, Ptr>, k: Key)
    requires Linked(cfg, st) && i < |st.shards|
    requires Ideal(cfg, st, i, s, ideal) && Submap(cache, ideal) && Forgotten(cfg, st, i, cache, k)
    ensures var index := st.shards[ShardOf(cfg, st, k)].index;
            k !in LiveKeys(st.cache, index) && LiveKeys(st.cache, index) + {k} <= LiveKeys(cache, index)
  {
    var index := st.shards[ShardOf(cfg, st, k)].index;
    IdealLiveKeysElsewhere(cfg, st, i, s, ideal, ShardOf(cfg, st, k));
    DropsKeepLive(ideal, cache, index);
    PendingIsKept(cfg, st, k);
  }

  lemma DropsKeepLive(cache: map<Key, Ptr>, fewer: map<Key, Ptr>, index: map<Key, Ptr>)
    requires Submap(fewer, cache)
    ensures LiveKeys(cache, index) <= LiveKeys(fewer, index)
  {
  }

  /** A removal that was lost gives the key its old value back. */
  lemma LostRemovalShows(cfg: Config, st: Store, i: nat, s: ShardState, cache: map<Key, Ptr>, k: Key)
    requires Linked(cfg, st) && i < |st.shards| && Forgotten(cfg, st, i, cache, k)
    ensures Meaning(cfg, st, k) == None
    ensures Meaning(cfg, Rebuilding(st, i, s, cache), k) == Kept(cfg, st, k) && Kept(cfg, st, k).Some?
  {
    assert Coherent(st.cache[k], IndexPtr(cfg, st, k));
    assert IndexPtr(cfg, Rebuilding(st, i, s, cache), k) == IndexPtr(cfg, st, k);
  }

  // ----- The rebuild as a step -----

  /** Some cached pointer has to be rewritten. */
  ghost predicate HasUpdates(st: Store, i: nat)
    requires i < |st.shards|
  {
    exists k :: k in st.shards[i].index && Rewrites(Lookup(st.cache, k))
  }

  lemma UpdatesAreCached(cfg: Config, st: Store, i: nat, entries: seq<Entry>)
    requires Linked(cfg, st) && i < |st.shards| && Enumerates(entries, st.shards[i].index)
    ensures Readable(entries, |st.shards[i].values|)
    ensures var updates := Compacted(st, i, entries).updates;
            && Enumerates(updates, Contents(updates)) && Contents(updates).Keys <= st.cache.Keys
            && (updates != [] <==> HasUpdates(st, i))
  {
    CompactionKeepsLiveKeys(cfg, st, i, entries);
    var updates := Compacted(st, i, entries).updates;
    if updates != [] {
      ContentsRepresents(updates);
      assert updates[0].key in Contents(updates);
    }
  }

  /** What a rebuild that runs through has done: the compaction, and part of its write-back. */
  lemma RebuildStepIs(cfg: Config, st: Store, i: nat, ch: Choice, next: Store)
    requires Inv(cfg, st) && i < |st.shards| && RebuildStep(cfg, st, i, ch, Running(next))
    ensures Readable(ch.entries, |st.shards[i].values|)
    ensures var r := Compacted(st, i, ch.entries);
            && Ideal(cfg, st, i, RebuiltShard(r), st.cache + Contents(r.updates))
            && Submap(next.cache, st.cache + Contents(r.updates))
            && next == Rebuilding(st, i, RebuiltShard(r), next.cache)
    ensures 3 * |next.cache| <= 2 * cfg.cacheSize + 3
  {
    CompactionIsIdeal(cfg, st, i, ch.entries);
    UpdatesAreCached(cfg, st, i, ch.entries);
    var updates := Compacted(st, i, ch.entries).updates;
    assert updates[..|ch.victims|] == updates;
    WriteBackIsSubmap(st.cache, updates, Contents(updates), ch.victims);
    WriteBackKeepsLoad(cfg.cacheSize, st.cache, updates, ch.victims);
  }

  /** A rebuild that runs through keeps the invariant, and the value of every key exactly if
      its write-back loses no removal: a key whose removal it forgets gets back the value its
      shard keeps for it. */
  lemma RebuildStepIsRight(cfg: Config, st: Store, i: nat, ch: Choice, next: Store)
    requires Inv(cfg, st) && i < |st.shards| && RebuildStep(cfg, st, i, ch, Running(next))
    ensures |next.shards| == |st.shards| && Inv(cfg, next)
    ensures forall k :: Meaning(cfg, next, k)
                        == if Forgotten(cfg, st, i, next.cache, k) then Kept(cfg, st, k) else Meaning(cfg, st, k)
    ensures SameMeaning(cfg, st, next) <==> !RemovalLost(cfg, st, i, next.cache)
  {
    RebuildStepIs(cfg, st, i, ch, next);
    var r := Compacted(st, i, ch.entries);
    var s, ideal := RebuiltShard(r), st.cache + Contents(r.updates);
    RebuildStaysLinked(cfg, st, i, s, ideal, next.cache);
    forall k
      ensures Meaning(cfg, next, k)
              == if Forgotten(cfg, st, i, next.cache, k) then Kept(cfg, st, k) else Meaning(cfg, st, k)
    {
      RebuildMeans(cfg, st, i, s, ideal, next.cache, k);
    }
    LossShows(cfg, st, i, s, next.cache);
  }

  /** It keeps the counters right exactly if it loses no removal. */
  lemma RebuildStepCounts(cfg: Config, st: Store, i: nat, ch: Choice, next: Store)
    requires Inv(cfg, st) && CountersOk(st) && i < |st.shards| && RebuildStep(cfg, st, i, ch, Running(next))
    ensures CountersOk(next) <==> !RemovalLost(cfg, st, i, next.cache)
  {
    RebuildStepIs(cfg, st, i, ch, next);
    var r := Compacted(st, i, ch.entries);
    if k :| Forgotten(cfg, st, i, next.cache, k) {
      RebuildMiscounts(cfg, st, i, RebuiltShard(r), st.cache + Contents(r.updates), next.cache, k);
    } else {
      RebuildCounts(cfg, st, i, RebuiltShard(r), st.cache + Contents(r.updates), next.cache);
    }
  }

  lemma RebuildStaysLinked(cfg: Config, st: Store, i: nat, s: ShardState, ideal: map<Key, Ptr>, cache: map<Key, Ptr>)
    requires Linked(cfg, st) && i < |st.shards| && Ideal(cfg, st, i, s, ideal) && Submap(cache, ideal)
    ensures Linked(cfg, Rebuilding(st, i, s, cache))
  {
    IdealStaysLinked(cfg, st, i, s, ideal);
    DropsStayLinked(cfg, Rebuilding(st, i, s, ideal), cache);
  }

  lemma LossShows(cfg: Config, st: Store, i: nat, s: ShardState, cache: map<Key, Ptr>)
    requires Linked(cfg, st) && i < |st.shards|
    ensures RemovalLost(cfg, st, i, cache) ==> !SameMeaning(cfg, st, Rebuilding(st, i, s, cache))
  {
    if k :| Forgotten(cfg, st, i, cache, k) {
      LostRemovalShows(cfg, st, i, s, cache, k);
    }
  }

  /** Below its load the cache is written back in place, and a build with assertions does not
      get through otherwise. */
  lemma WrittenBackInPlace(cfg: Config, st: Store, i: nat, ch: Choice, next: Store)
    requires Linked(cfg, st) && i < |st.shards| && RebuildStep(cfg, st, i, ch, Running(next))
    requires cfg.asserts || !Heavy(cfg.cacheSize, st.cache) || !HasUpdates(st, i)
    ensures next.cache.Keys == st.cache.Keys
  {
    UpdatesAreCached(cfg, st, i, ch.entries);
    var r := Compacted(st, i, ch.entries);
    var m := Contents(r.updates);
    assert r.updates[..|ch.victims|] == r.updates;
    WriteBackDisplacesNothing(cfg.cacheSize, st.cache, r.updates, m, ch.victims);
    WriteBackIsSubmap(st.cache, r.updates, m, ch.victims);
    assert next.cache == st.cache + m;
  }

  lemma NothingLost(cfg: Config, st: Store, i: nat, ch: Choice, next: Store)
    requires Linked(cfg, st) && i < |st.shards| && RebuildStep(cfg, st, i, ch, Running(next))
    requires cfg.asserts || !Heavy(cfg.cacheSize, st.cache) || !HasUpdates(st, i)
    ensures !RemovalLost(cfg, st, i, next.cache)
  {
    WrittenBackInPlace(cfg, st, i, ch, next);
    assert forall k :: Lookup(st.cache, k).IsDeleted() ==> k in st.cache.Keys;
  }

  /** Exactly when a rebuild ends the program: in a build with assertions, if an indexed key is
      known to be gone, or if there are pointers to write back and the cache is over its load. */
  lemma RebuildStops(cfg: Config, st: Store, i: nat, ch: Choice, out: Outcome)
    requires Linked(cfg, st) && i < |st.shards| && RebuildStep(cfg, st, i, ch, out)
    ensures out.Stopped? <==>
            cfg.asserts && (KnownGone(st, i) || (Heavy(cfg.cacheSize, st.cache) && HasUpdates(st, i)))
  {
    UpdatesAreCached(cfg, st, i, ch.entries);
    var updates := Compacted(st, i, ch.entries).updates;
    if !(cfg.asserts && KnownGone(st, i)) {
      var n := |ch.victims|;
      EnumeratesItself(updates, Contents(updates), n);
      PrefixIsCached(st.cache, updates, n);
      WriteBackDisplacesNothing(cfg.cacheSize, st.cache, updates[..n], Contents(updates[..n]), ch.victims);
    }
  }

  lemma PrefixIsCached(cache: map<Key, Ptr>, updates: seq<Entry>, n: nat)
    requires n <= |updates| && DistinctKeys(updates)
    requires Contents(updates).Keys <= cache.Keys
    requires forall j :: 0 <= j < |updates| ==> !updates[j].IsFree()
    ensures Contents(updates[..n]).Keys <= cache.Keys
  {
    ContentsRepresents(updates);
    ContentsRepresents(updates[..n]);
    forall k | k in Contents(updates[..n])
      ensures k in Contents(updates)
    {
      assert Holds(updates[..n], k);
    }
  }

  /** The two assertions on the index entry in the loop. Of a key cached as present the entry
      is present, as asserted. Of a key known to be gone it is a deleted one, as the comment
      there says, and so never of the type asserted. */
  lemma EntryAssertions(cfg: Config, st: Store, i: nat, k: Key)
    requires Linked(cfg, st) && i < |st.shards| && k in st.shards[i].index
    ensures Lookup(st.cache, k).IsPresent() ==> st.shards[i].index[k].IsPresent()
    ensures Lookup(st.cache, k).IsNonexistent() ==>
              st.shards[i].index[k].IsDeleted() && !st.shards[i].index[k].IsNonexistent()
  {
    assert ShardOf(cfg, st, k) == i;
    if k in st.cache {
      assert Coherent(st.cache[k], IndexPtr(cfg, st, k));
    }
  }
}
