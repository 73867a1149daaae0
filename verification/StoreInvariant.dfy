/** How a change at one key moves the invariant and the meaning of the store. */
module StoreInvariant {
  import opened KeyValueTypes
  import opened ShardModel
  import opened StoreModel

  /** The cache with its pointer for a key replaced; the empty pointer takes the key out. */
  function Recached(cache: map<Key, Ptr>, key: Key, ptr: Ptr): map<Key, Ptr> {
    if ptr.IsEmpty() then cache - {key} else cache[key := ptr]
  }

  function Changed(cfg: Config, st: Store, key: Key, s: ShardState, ptr: Ptr): Store
    requires |st.shards| > 0
  {
    Store(Recached(st.cache, key, ptr), st.shards[ShardOf(cfg, st, key) := s])
  }

  function One(b: bool): nat { if b then 1 else 0 }

  /** What the shard of a key holds for it, whether or not a removal is pending. */
  function Kept(cfg: Config, st: Store, key: Key): Option<Value>
    requires |st.shards| > 0
  {
    Stored(st.shards[ShardOf(cfg, st, key)], key)
  }

  /** The new shard and the new cached pointer of the key fit together. */
  ghost predicate LocalChange(cfg: Config, st: Store, key: Key, s: ShardState, ptr: Ptr)
    requires Linked(cfg, st)
  {
    && ShardInv(s) && AgreeExceptAt(st.shards[ShardOf(cfg, st, key)], s, key)
    && Coherent(ptr, Lookup(s.index, key))
  }

  /** The counter follows the key's becoming live or dead. */
  ghost predicate CounterFollows(cfg: Config, st: Store, key: Key, s: ShardState, ptr: Ptr)
    requires |st.shards| > 0
  {
    var before := st.shards[ShardOf(cfg, st, key)];
    s.alive + One(Live(st.cache, before.index, key))
    == before.alive + One(Live(Recached(st.cache, key, ptr), s.index, key))
  }

  ghost predicate SameBut(index: map<Key, Ptr>, index': map<Key, Ptr>, key: Key) {
    forall k :: k != key ==> (k in index <==> k in index') && (k in index ==> index'[k] == index[k])
  }

  lemma LiveKeysAfterChange(cache: map<Key, Ptr>, index: map<Key, Ptr>, key: Key, ptr: Ptr, index': map<Key, Ptr>)
    requires SameBut(index, index', key)
    ensures |LiveKeys(Recached(cache, key, ptr), index')| + One(Live(cache, index, key))
            == |LiveKeys(cache, index)| + One(Live(Recached(cache, key, ptr), index', key))
  {
    var before, after := LiveKeys(cache, index), LiveKeys(Recached(cache, key, ptr), index');
    OthersStayLive(cache, index, key, ptr, index');
    SizeWithout(before, key);
    SizeWithout(after, key);
  }

  lemma OthersStayLive(cache: map<Key, Ptr>, index: map<Key, Ptr>, key: Key, ptr: Ptr, index': map<Key, Ptr>)
    requires SameBut(index, index', key)
    ensures LiveKeys(cache, index) - {key} == LiveKeys(Recached(cache, key, ptr), index') - {key}
  {
    var cache' := Recached(cache, key, ptr);
    forall k | k != key
      ensures k in LiveKeys(cache, index) <==> k in LiveKeys(cache', index')
    {
      assert Lookup(cache', k) == Lookup(cache, k);
    }
  }

  /** Only the removals pending in the cache matter for who is live. */
  lemma LiveKeysFollowRemovals(cache: map<Key, Ptr>, cache': map<Key, Ptr>, index: map<Key, Ptr>)
    requires forall k :: k in index ==> (Lookup(cache, k).IsDeleted() <==> Lookup(cache', k).IsDeleted())
    ensures LiveKeys(cache, index) == LiveKeys(cache', index)
  {
  }

  lemma SizeWithout(s: set<Key>, key: Key)
    ensures |s - {key}| + One(key in s) == |s|
  {
    if key in s {
      assert s == (s - {key}) + {key};
    } else {
      assert s - {key} == s;
    }
  }

  lemma ChangeKeepsCounters(cfg: Config, st: Store, key: Key, s: ShardState, ptr: Ptr)
    requires Linked(cfg, st) && CountersOk(st)
    requires LocalChange(cfg, st, key, s, ptr) && CounterFollows(cfg, st, key, s, ptr)
    ensures CountersOk(Changed(cfg, st, key, s, ptr))
  {
    var st', i := Changed(cfg, st, key, s, ptr), ShardOf(cfg, st, key);
    ChangeKeepsCounter(cfg, st, key, s, ptr);
    forall j | 0 <= j < |st.shards| && j != i
      ensures st.shards[j].alive == |LiveKeys(st'.cache, st.shards[j].index)|
    {
      LiveElsewhere(st.cache, st.shards[j].index, key, ptr);
    }
  }

  lemma ChangeKeepsCounter(cfg: Config, st: Store, key: Key, s: ShardState, ptr: Ptr)
    requires Linked(cfg, st) && CountersOk(st)
    requires LocalChange(cfg, st, key, s, ptr) && CounterFollows(cfg, st, key, s, ptr)
    ensures s.alive == |LiveKeys(Recached(st.cache, key, ptr), s.index)|
  {
    LiveKeysAfterChange(st.cache, st.shards[ShardOf(cfg, st, key)].index, key, ptr, s.index);
  }

  lemma LiveElsewhere(cache: map<Key, Ptr>, index: map<Key, Ptr>, key: Key, ptr: Ptr)
    requires key !in index
    ensures LiveKeys(Recached(cache, key, ptr), index) == LiveKeys(cache, index)
  {
  }

  lemma ChangeKeepsShards(cfg: Config, st: Store, key: Key, s: ShardState, ptr: Ptr)
    requires Linked(cfg, st) && LocalChange(cfg, st, key, s, ptr)
    ensures ShardsOk(cfg, Changed(cfg, st, key, s, ptr))
  {
    var st', i := Changed(cfg, st, key, s, ptr), ShardOf(cfg, st, key);
    forall j, k | 0 <= j < |st'.shards| && k in st'.shards[j].index
      ensures ShardOf(cfg, st', k) == j
    {
      assert ShardOf(cfg, st', k) == ShardOf(cfg, st, k);
      if j == i && k != key {
        assert k in st.shards[i].index;
      }
    }
  }

  lemma ChangeKeepsCache(cfg: Config, st: Store, key: Key, s: ShardState, ptr: Ptr)
    requires Linked(cfg, st) && LocalChange(cfg, st, key, s, ptr)
    ensures CacheOk(cfg, Changed(cfg, st, key, s, ptr))
  {
    var st' := Changed(cfg, st, key, s, ptr);
    forall k | k in st'.cache
      ensures !st'.cache[k].IsEmpty() && Coherent(st'.cache[k], IndexPtr(cfg, st', k))
    {
      if k != key {
        assert k in st.cache && IndexPtr(cfg, st', k) == IndexPtr(cfg, st, k);
      }
    }
  }

  /** The key means in both stores the same, and its shard keeps the same for it. */
  ghost predicate Undisturbed(cfg: Config, st: Store, st': Store, k: Key)
    requires |st.shards| > 0 && |st'.shards| > 0
  {
    Meaning(cfg, st', k) == Meaning(cfg, st, k) && Kept(cfg, st', k) == Kept(cfg, st, k)
  }

  /** A change at one key keeps the invariant, and every other key's value. */
  lemma ChangeIsLocal(cfg: Config, st: Store, key: Key, s: ShardState, ptr: Ptr)
    requires Linked(cfg, st) && LocalChange(cfg, st, key, s, ptr)
    ensures Linked(cfg, Changed(cfg, st, key, s, ptr))
    ensures forall k :: k != key ==> Undisturbed(cfg, st, Changed(cfg, st, key, s, ptr), k)
    ensures CountersOk(st) && CounterFollows(cfg, st, key, s, ptr) ==> CountersOk(Changed(cfg, st, key, s, ptr))
  {
    ChangeKeepsShards(cfg, st, key, s, ptr);
    ChangeKeepsCache(cfg, st, key, s, ptr);
    if CountersOk(st) && CounterFollows(cfg, st, key, s, ptr) {
      ChangeKeepsCounters(cfg, st, key, s, ptr);
    }
    forall k | k != key
      ensures Undisturbed(cfg, st, Changed(cfg, st, key, s, ptr), k)
    {
      OthersUndisturbed(cfg, st, key, s, ptr, k);
    }
  }

  lemma OthersUndisturbed(cfg: Config, st: Store, key: Key, s: ShardState, ptr: Ptr, k: Key)
    requires Linked(cfg, st) && LocalChange(cfg, st, key, s, ptr) && k != key
    requires Linked(cfg, Changed(cfg, st, key, s, ptr))
    ensures Undisturbed(cfg, st, Changed(cfg, st, key, s, ptr), k)
  {
    AgreedKept(st.shards[ShardOf(cfg, st, key)], s, key, k);
    MeaningIsKept(cfg, st, k);
    MeaningIsKept(cfg, Changed(cfg, st, key, s, ptr), k);
    assert Lookup(Changed(cfg, st, key, s, ptr).cache, k) == Lookup(st.cache, k);
  }

  lemma AgreedKept(before: ShardState, after: ShardState, key: Key, k: Key)
    requires ShardInv(before) && ShardInv(after) && AgreeExceptAt(before, after, key) && k != key
    ensures Stored(after, k) == Stored(before, k)
  {
    if k in before.index {
      assert after.index[k] == before.index[k];
    }
  }

  /** What the cache says of a key only decides whether it has the value its shard keeps. */
  lemma MeaningIsKept(cfg: Config, st: Store, key: Key)
    requires Linked(cfg, st)
    ensures var cached := Lookup(st.cache, key);
            Meaning(cfg, st, key) == if cached.IsEmpty() || cached.IsPresent() then Kept(cfg, st, key) else None
  {
    if key in st.cache {
      assert Coherent(st.cache[key], IndexPtr(cfg, st, key));
    }
  }

  /** A key has a value exactly if it is live, and then it is the one in the key's slot. */
  lemma MeaningIsLive(cfg: Config, st: Store, key: Key)
    requires Linked(cfg, st)
    ensures var s := st.shards[ShardOf(cfg, st, key)];
            Meaning(cfg, st, key)
            == if Live(st.cache, s.index, key) then Some(s.values[s.index[key].GetIndex()]) else None
  {
  }

  /** A key whose removal is pending has no value, but its shard still keeps one. */
  lemma PendingIsKept(cfg: Config, st: Store, key: Key)
    requires Linked(cfg, st) && Lookup(st.cache, key).IsDeleted()
    ensures Meaning(cfg, st, key) == None && Kept(cfg, st, key).Some?
  {
    assert Coherent(st.cache[key], IndexPtr(cfg, st, key));
  }
}
