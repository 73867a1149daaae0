/** What a call does to the store up to the rebuild, case by case. */
module StoreSteps {
  import opened KeyValueTypes
  import opened ShardModel
  import opened StoreModel
  import opened StoreInvariant

  /** The value a key has after the call: only an add or a remove changes one, its own. */
  function ValueAfter(cfg: Config, st: Store, op: Op, key: Key): Option<Value>
    requires |st.shards| > 0
  {
    if key != op.key then Meaning(cfg, st, key)
    else
      match op
      case Add(_, value) => Some(value)
      case Get(_) => Meaning(cfg, st, key)
      case Remove(_) => None
  }

  /** Every key has the value it should have after the call. */
  ghost predicate MeansAfter(cfg: Config, st: Store, op: Op, st': Store)
    requires |st.shards| > 0
  {
    |st'.shards| == |st.shards| && forall k :: Meaning(cfg, st', k) == ValueAfter(cfg, st, op, k)
  }

  /** The removals pending afterwards were pending before, but for some keys, and the shards
      keep the same values for them. */
  ghost predicate PendingKept(cfg: Config, st: Store, st': Store, but: set<Key>)
    requires |st.shards| > 0 && |st'.shards| > 0
  {
    forall k :: k !in but && Lookup(st'.cache, k).IsDeleted() ==>
      Lookup(st.cache, k).IsDeleted() && Kept(cfg, st', k) == Kept(cfg, st, k)
  }

  ghost predicate After(cfg: Config, st: Store, op: Op, st': Store)
    requires |st.shards| > 0
  {
    && Linked(cfg, st') && MeansAfter(cfg, st, op, st')
    && PendingKept(cfg, st, st', {op.key})
    && (CountersOk(st) ==> CountersOk(st'))
  }

  ghost predicate SameMeaning(cfg: Config, st: Store, st': Store)
    requires |st.shards| > 0 && |st'.shards| > 0
  {
    forall k :: Meaning(cfg, st', k) == Meaning(cfg, st, k)
  }

  /** The value of the changed key: the new cached pointer says whether the shard is asked. */
  lemma MeaningOfChanged(cfg: Config, st: Store, key: Key, s: ShardState, ptr: Ptr)
    requires Linked(cfg, st) && LocalChange(cfg, st, key, s, ptr)
    ensures Meaning(cfg, Changed(cfg, st, key, s, ptr), key)
            == if ptr.IsEmpty() || ptr.IsPresent() then Stored(s, key) else None
  {
  }

  lemma OthersPending(cfg: Config, st: Store, key: Key, s: ShardState, ptr: Ptr)
    requires Linked(cfg, st) && LocalChange(cfg, st, key, s, ptr)
    ensures PendingKept(cfg, st, Changed(cfg, st, key, s, ptr), {key})
  {
    var st' := Changed(cfg, st, key, s, ptr);
    forall k | k != key && Lookup(st'.cache, k).IsDeleted()
      ensures Lookup(st.cache, k).IsDeleted() && Kept(cfg, st', k) == Kept(cfg, st, k)
    {
      AgreedKept(st.shards[ShardOf(cfg, st, key)], s, key, k);
    }
  }

  lemma OthersMean(cfg: Config, st: Store, key: Key, s: ShardState, ptr: Ptr, value: Option<Value>)
    requires Linked(cfg, st) && LocalChange(cfg, st, key, s, ptr)
    requires Meaning(cfg, Changed(cfg, st, key, s, ptr), key) == value
    ensures forall k :: Meaning(cfg, Changed(cfg, st, key, s, ptr), k)
                        == if k == key then value else Meaning(cfg, st, k)
  {
    forall k | k != key
      ensures Meaning(cfg, Changed(cfg, st, key, s, ptr), k) == Meaning(cfg, st, k)
    {
      ChangeIsLocal(cfg, st, key, s, ptr);
      assert Undisturbed(cfg, st, Changed(cfg, st, key, s, ptr), k);
    }
  }

  /** A change at the key of a call is right if its shard and its pointer come to say what
      they should. */
  lemma ChangeIsStep(cfg: Config, st: Store, op: Op, s: ShardState, ptr: Ptr)
    requires Linked(cfg, st) && LocalChange(cfg, st, op.key, s, ptr)
    requires CountersOk(st) ==> CounterFollows(cfg, st, op.key, s, ptr)
    requires ValueAfter(cfg, st, op, op.key) == if ptr.IsEmpty() || ptr.IsPresent() then Stored(s, op.key) else None
    ensures After(cfg, st, op, Changed(cfg, st, op.key, s, ptr))
  {
    ChangeIsLocal(cfg, st, op.key, s, ptr);
    MeaningOfChanged(cfg, st, op.key, s, ptr);
    OthersPending(cfg, st, op.key, s, ptr);
    OthersMean(cfg, st, op.key, s, ptr, ValueAfter(cfg, st, op, op.key));
  }

  /** Dropping a cached pointer, and the push that goes with it. */
  function Evicted(cfg: Config, st: Store, key: Key): Store
    requires |st.shards| > 0
  {
    var s := st.shards[ShardOf(cfg, st, key)];
    Changed(cfg, st, key, if Lookup(st.cache, key).IsDeleted() then MarkDeleted(s, key) else s, EMPTY_PTR)
  }

  /** Eviction is transparent: every key keeps its value, and the counters stay right although
      the push leaves them alone. */
  lemma EvictionIsTransparent(cfg: Config, st: Store, key: Key)
    requires Linked(cfg, st) && key in st.cache
    ensures Linked(cfg, Evicted(cfg, st, key))
    ensures SameMeaning(cfg, st, Evicted(cfg, st, key)) && PendingKept(cfg, st, Evicted(cfg, st, key), {})
    ensures CountersOk(st) ==> CountersOk(Evicted(cfg, st, key))
  {
    var s := st.shards[ShardOf(cfg, st, key)];
    var after := if Lookup(st.cache, key).IsDeleted() then MarkDeleted(s, key) else s;
    EvictionFits(cfg, st, key, after);
    ChangeIsLocal(cfg, st, key, after, EMPTY_PTR);
    MeaningIsKept(cfg, st, key);
    MeaningOfChanged(cfg, st, key, after, EMPTY_PTR);
    OthersPending(cfg, st, key, after, EMPTY_PTR);
    OthersMean(cfg, st, key, after, EMPTY_PTR, Meaning(cfg, st, key));
  }

  lemma EvictionFits(cfg: Config, st: Store, key: Key, after: ShardState)
    requires Linked(cfg, st) && key in st.cache
    requires var s := st.shards[ShardOf(cfg, st, key)];
             after == if Lookup(st.cache, key).IsDeleted() then MarkDeleted(s, key) else s
    ensures LocalChange(cfg, st, key, after, EMPTY_PTR) && CounterFollows(cfg, st, key, after, EMPTY_PTR)
    ensures Stored(after, key) == if Lookup(st.cache, key).IsPresent() then Kept(cfg, st, key) else None
  {
    MarkDeletedIsLocal(st.shards[ShardOf(cfg, st, key)], key);
    assert Coherent(st.cache[key], IndexPtr(cfg, st, key));
  }

  /** The push is needed: dropping a delayed removal without it brings the value back. */
  lemma DroppedRemovalRevivesValue(cfg: Config, st: Store, key: Key)
    requires Linked(cfg, st) && Lookup(st.cache, key).IsDeleted()
    ensures Meaning(cfg, st, key) == None
    ensures Meaning(cfg, st.(cache := st.cache - {key}), key).Some?
  {
    assert key in st.cache;
  }

  /** The store in which the put has happened and nothing was displaced yet. */
  function Virtual(st: Store, key: Key, ptr: Ptr): Store {
    st.(cache := st.cache[key := ptr])
  }

  lemma PutAndPushIsEviction(cfg: Config, st: Store, key: Key, ptr: Ptr, victim: Key)
    requires |st.shards| > 0 && victim in st.cache && !ptr.IsEmpty()
    requires victim == key ==> !st.cache[key].IsDeleted()
    ensures PutAndPush(cfg, st, Entry(key, ptr), Some(victim))
            == Ready(if victim == key then Virtual(st, key, ptr) else Evicted(cfg, Virtual(st, key, ptr), victim),
                     Some(ShardOf(cfg, st, victim)))
  {
    var cache, i := CachePut(st.cache, Entry(key, ptr), Some(victim)), ShardOf(cfg, st, victim);
    if victim == key {
      assert cache == st.cache[key := ptr];
    } else {
      assert cache == st.cache[key := ptr] - {victim};
      assert st.shards[i := st.shards[i]] == st.shards;
    }
  }

  lemma PutAndPushIsTransparent(cfg: Config, st: Store, key: Key, ptr: Ptr, victim: Option<Key>)
    requires |st.shards| > 0 && !ptr.IsEmpty() && Linked(cfg, Virtual(st, key, ptr))
    requires victim.Some? ==> victim.value in st.cache && (victim.value == key ==> !st.cache[key].IsDeleted())
    ensures var put, ready := Virtual(st, key, ptr), PutAndPush(cfg, st, Entry(key, ptr), victim).store;
            && Linked(cfg, ready) && SameMeaning(cfg, put, ready)
            && PendingKept(cfg, put, ready, {})
            && |ready.shards| == |st.shards|
            && (CountersOk(put) ==> CountersOk(ready))
  {
    if victim.Some? {
      PutAndPushIsEviction(cfg, st, key, ptr, victim.value);
      if victim.value != key {
        EvictionIsTransparent(cfg, Virtual(st, key, ptr), victim.value);
      }
    }
  }

  // ----- The counters do not wrap -----

  lemma AliveIsBounded(cfg: Config, st: Store, key: Key)
    requires Linked(cfg, st) && CountersOk(st)
    ensures var s := st.shards[ShardOf(cfg, st, key)];
            && s.alive <= |s.index| <= SHARD_CAPACITY
            && Increment(s.alive) == s.alive + 1
            && (Live(st.cache, s.index, key) ==> Decrement(s.alive) == s.alive - 1)
  {
    LiveKeysAreIndexed(st.cache, st.shards[ShardOf(cfg, st, key)].index, key);
  }

  lemma LiveKeysAreIndexed(cache: map<Key, Ptr>, index: map<Key, Ptr>, key: Key)
    ensures |LiveKeys(cache, index)| <= |index|
    ensures Live(cache, index, key) ==> |LiveKeys(cache, index)| > 0
  {
    SubsetIsSmaller(LiveKeys(cache, index), index.Keys);
    if Live(cache, index, key) {
      assert key in LiveKeys(cache, index);
    }
  }

  lemma SubsetIsSmaller(a: set<Key>, b: set<Key>)
    requires a <= b
    ensures |a| <= |b|
  {
    assert b == a + (b - a);
  }

  // ----- The five changes -----

  lemma AddHit(cfg: Config, st: Store, key: Key, value: Value)
    requires Linked(cfg, st)
    requires Lookup(st.cache, key).IsPresent() || Lookup(st.cache, key).IsDeleted()
    ensures var ready := Prepare(cfg, st, Add(key, value), None);
            ready.Ready? && ready.check.None? && After(cfg, st, Add(key, value), ready.store)
  {
    if Lookup(st.cache, key).IsPresent() {
      Overwrite(cfg, st, key, value);
    } else {
      Revive(cfg, st, key, value);
    }
  }

  lemma Overwrite(cfg: Config, st: Store, key: Key, value: Value)
    requires Linked(cfg, st) && Lookup(st.cache, key).IsPresent()
    ensures st.cache[key].GetIndex() < |st.shards[ShardOf(cfg, st, key)].values|
    ensures var s := WriteDirectly(st.shards[ShardOf(cfg, st, key)], st.cache[key], value);
            After(cfg, st, Add(key, value), WithShard(cfg, st, key, s))
  {
    var s, cached := st.shards[ShardOf(cfg, st, key)], st.cache[key];
    assert Coherent(cached, IndexPtr(cfg, st, key));
    WriteDirectlyIsLocal(s, key, value);
    assert st.cache[key := cached] == st.cache;
    ChangeIsStep(cfg, st, Add(key, value), WriteDirectly(s, cached, value), cached);
  }

  lemma Revive(cfg: Config, st: Store, key: Key, value: Value)
    requires Linked(cfg, st) && Lookup(st.cache, key).IsDeleted()
    ensures st.cache[key].GetIndex() < |st.shards[ShardOf(cfg, st, key)].values|
    ensures var before := st.shards[ShardOf(cfg, st, key)];
            var s := WriteDirectly(before, st.cache[key], value).(alive := Increment(before.alive));
            After(cfg, st, Add(key, value),
                  Virtual(WithShard(cfg, st, key, s), key, st.cache[key].SetValuePresent(true)))
  {
    var before, cached := st.shards[ShardOf(cfg, st, key)], st.cache[key];
    var s := WriteDirectly(before, cached, value).(alive := Increment(before.alive));
    ReviveFits(cfg, st, key, value, s);
    ChangeIsStep(cfg, st, Add(key, value), s, cached.SetValuePresent(true));
  }

  lemma ReviveFits(cfg: Config, st: Store, key: Key, value: Value, s: ShardState)
    requires Linked(cfg, st) && Lookup(st.cache, key).IsDeleted()
    requires var before := st.shards[ShardOf(cfg, st, key)];
             && st.cache[key].GetIndex() < |before.values|
             && s == WriteDirectly(before, st.cache[key], value).(alive := Increment(before.alive))
    ensures var ptr := st.cache[key].SetValuePresent(true);
            && ptr.IsPresent() && LocalChange(cfg, st, key, s, ptr) && Stored(s, key) == Some(value)
            && (CountersOk(st) ==> CounterFollows(cfg, st, key, s, ptr))
  {
    var before := st.shards[ShardOf(cfg, st, key)];
    assert Coherent(st.cache[key], IndexPtr(cfg, st, key));
    WriteDirectlyIsLocal(before, key, value);
    if CountersOk(st) {
      AliveIsBounded(cfg, st, key);
    }
  }

  lemma AddMiss(cfg: Config, st: Store, key: Key, value: Value)
    requires Linked(cfg, st) && !Overflows(st.shards[ShardOf(cfg, st, key)], key)
    requires Lookup(st.cache, key).IsEmpty() || Lookup(st.cache, key).IsNonexistent()
    ensures var (s, ptr) := WriteValue(st.shards[ShardOf(cfg, st, key)], key, value);
            !ptr.IsEmpty() && After(cfg, st, Add(key, value), Virtual(WithShard(cfg, st, key, s), key, ptr))
  {
    var before := st.shards[ShardOf(cfg, st, key)];
    WriteValueIsLocal(before, key, value);
    if CountersOk(st) {
      AliveIsBounded(cfg, st, key);
    }
    var (s, ptr) := WriteValue(before, key, value);
    ChangeIsStep(cfg, st, Add(key, value), s, ptr);
  }

  lemma GetMiss(cfg: Config, st: Store, key: Key)
    requires Linked(cfg, st) && Lookup(st.cache, key).IsEmpty()
    ensures var found := IndexPtr(cfg, st, key);
            After(cfg, st, Get(key), Virtual(st, key, if found.IsPresent() then found else NONEXISTENT_PTR))
  {
    var s, found := st.shards[ShardOf(cfg, st, key)], IndexPtr(cfg, st, key);
    ChangeIsStep(cfg, st, Get(key), s, if found.IsPresent() then found else NONEXISTENT_PTR);
    assert st.shards[ShardOf(cfg, st, key) := s] == st.shards;
  }

  lemma RemoveHit(cfg: Config, st: Store, key: Key)
    requires Linked(cfg, st) && Lookup(st.cache, key).IsPresent()
    ensures var ready := Prepare(cfg, st, Remove(key), None);
            && ready.Ready? && ready.check == Some(ShardOf(cfg, st, key))
            && After(cfg, st, Remove(key), ready.store)
  {
    var before := st.shards[ShardOf(cfg, st, key)];
    var s, ptr := before.(alive := Decrement(before.alive)), st.cache[key].SetValuePresent(false);
    RemoveHitFits(cfg, st, key, s, ptr);
    ChangeIsStep(cfg, st, Remove(key), s, ptr);
  }

  lemma RemoveHitFits(cfg: Config, st: Store, key: Key, s: ShardState, ptr: Ptr)
    requires Linked(cfg, st) && Lookup(st.cache, key).IsPresent()
    requires var before := st.shards[ShardOf(cfg, st, key)];
             s == before.(alive := Decrement(before.alive)) && ptr == st.cache[key].SetValuePresent(false)
    ensures ptr.IsDeleted() && LocalChange(cfg, st, key, s, ptr)
    ensures CountersOk(st) ==> CounterFollows(cfg, st, key, s, ptr)
  {
    assert Coherent(st.cache[key], IndexPtr(cfg, st, key));
    if CountersOk(st) {
      AliveIsBounded(cfg, st, key);
    }
  }

  lemma RemoveMiss(cfg: Config, st: Store, key: Key)
    requires Linked(cfg, st) && Lookup(st.cache, key).IsEmpty()
    ensures var s := RemoveEntry(st.shards[ShardOf(cfg, st, key)], key);
            After(cfg, st, Remove(key), Virtual(WithShard(cfg, st, key, s), key, NONEXISTENT_PTR))
  {
    var before := st.shards[ShardOf(cfg, st, key)];
    if CountersOk(st) {
      AliveIsBounded(cfg, st, key);
    }
    MarkDeletedIsLocal(before, key);
    ChangeIsStep(cfg, st, Remove(key), RemoveEntry(before, key), NONEXISTENT_PTR);
  }

  // ----- One call -----

  /** Up to the rebuild a call keeps the invariant and changes the one value it should. */
  lemma PrepareIsRight(cfg: Config, st: Store, op: Op, victim: Option<Key>)
    requires Linked(cfg, st)
    requires Puts(st, op) && victim.Some? ==> victim.value in st.cache
    ensures match Prepare(cfg, st, op, victim)
            case Overflow => op.Add? && Puts(st, op) && Overflows(st.shards[ShardOf(cfg, st, op.key)], op.key)
            case Ready(ready, check) =>
              After(cfg, st, op, ready) && (check.Some? ==> check.value < |ready.shards|)
  {
    if !Puts(st, op) {
      HitIsRight(cfg, st, op);
    } else if !(op.Add? && Overflows(st.shards[ShardOf(cfg, st, op.key)], op.key)) {
      MissIsRight(cfg, st, op, victim);
    }
  }

  lemma MissIsRight(cfg: Config, st: Store, op: Op, victim: Option<Key>)
    requires Linked(cfg, st) && Puts(st, op)
    requires op.Add? ==> !Overflows(st.shards[ShardOf(cfg, st, op.key)], op.key)
    requires victim.Some? ==> victim.value in st.cache
    ensures var prepared := Prepare(cfg, st, op, victim);
            && prepared.Ready? && After(cfg, st, op, prepared.store)
            && prepared.check == if victim.Some? then Some(ShardOf(cfg, st, victim.value)) else None
  {
    var (s, ptr) := WriteOf(st.shards[ShardOf(cfg, st, op.key)], op);
    var written := WithShard(cfg, st, op.key, s);
    PrepareIsPut(cfg, st, op, victim);
    PutIsRight(cfg, st, op);
    PutAndPushIsTransparent(cfg, written, op.key, ptr, victim);
    AfterThenSame(cfg, st, op, Virtual(written, op.key, ptr), Prepare(cfg, st, op, victim).store);
  }

  lemma AfterThenSame(cfg: Config, st: Store, op: Op, mid: Store, end: Store)
    requires |st.shards| > 0 && |end.shards| == |mid.shards| && After(cfg, st, op, mid)
    requires Linked(cfg, end) && SameMeaning(cfg, mid, end) && PendingKept(cfg, mid, end, {})
    requires CountersOk(mid) ==> CountersOk(end)
    ensures After(cfg, st, op, end)
  {
  }

  /** What a call that misses the cache does to the shard, and the pointer it caches. */
  function WriteOf(s: ShardState, op: Op): (ShardState, Ptr)
    requires ShardInv(s) && (op.Add? ==> !Overflows(s, op.key))
  {
    match op
    case Add(key, value) => WriteValue(s, key, value)
    case Get(key) => (s, if Lookup(s.index, key).IsPresent() then Lookup(s.index, key) else NONEXISTENT_PTR)
    case Remove(key) => (RemoveEntry(s, key), NONEXISTENT_PTR)
  }

  lemma PrepareIsPut(cfg: Config, st: Store, op: Op, victim: Option<Key>)
    requires Linked(cfg, st) && Puts(st, op)
    requires op.Add? ==> !Overflows(st.shards[ShardOf(cfg, st, op.key)], op.key)
    ensures var (s, ptr) := WriteOf(st.shards[ShardOf(cfg, st, op.key)], op);
            Prepare(cfg, st, op, victim) == PutAndPush(cfg, WithShard(cfg, st, op.key, s), Entry(op.key, ptr), victim)
  {
    var i := ShardOf(cfg, st, op.key);
    assert st.shards[i := st.shards[i]] == st.shards;
  }

  lemma PutIsRight(cfg: Config, st: Store, op: Op)
    requires Linked(cfg, st) && Puts(st, op)
    requires op.Add? ==> !Overflows(st.shards[ShardOf(cfg, st, op.key)], op.key)
    ensures var (s, ptr) := WriteOf(st.shards[ShardOf(cfg, st, op.key)], op);
            !ptr.IsEmpty() && After(cfg, st, op, Virtual(WithShard(cfg, st, op.key, s), op.key, ptr))
  {
    var i := ShardOf(cfg, st, op.key);
    match op {
      case Add(key, value) => AddMiss(cfg, st, key, value);
      case Get(key) =>
        GetMiss(cfg, st, key);
        assert st.shards[i := st.shards[i]] == st.shards;
      case Remove(key) => RemoveMiss(cfg, st, key);
    }
  }

  lemma HitIsRight(cfg: Config, st: Store, op: Op)
    requires Linked(cfg, st) && !Puts(st, op)
    ensures var ready := Prepare(cfg, st, op, None);
            && ready.Ready? && After(cfg, st, op, ready.store)
            && ready.check == (if op.Remove? && Lookup(st.cache, op.key).IsPresent()
                               then Some(ShardOf(cfg, st, op.key)) else None)
            && forall victim :: Prepare(cfg, st, op, victim) == ready
  {
    match op {
      case Add(key, value) => AddHit(cfg, st, key, value);
      case Get(key) =>
      case Remove(key) =>
        if Lookup(st.cache, key).IsPresent() {
          RemoveHit(cfg, st, key);
        }
    }
  }
}
